/** The fixture certificate of `tests/SslCertificateTest.php` replayed
    against the model: its alternative names, its host coverage and its
    validity window, with instants as Unix timestamps in UTC. */
module Scenarios {
  import opened Wrappers
  import opened PhpStrings
  import opened HostMatching
  import Validity
  import opened Crl
  import opened Certificates

  /** The fixture's additional domains, in the order its
      subject-alternative-name text lists them. */
  const FixtureDomains: seq<string> := ["spatie.be", "www.spatie.be", "*.otherdomain.com"]

  /** The names the fixture is checked against: its subject common name,
      then its additional domains. */
  const FixtureHosts: seq<string> := ["spatie.be", "spatie.be", "www.spatie.be", "*.otherdomain.com"]

  /** 2016-05-19 16:50:00 and 2016-08-17 16:50:00. */
  const FixtureWindow: Validity.Window := Validity.Window(1463676600, 1471452600)

  /** No fixture domain holds a space or a `D`, so none holds `, ` or
      `DNS:`. */
  lemma FixtureDomainsClean()
    ensures forall k :: 0 <= k < |FixtureDomains| ==>
      !Occurs(FixtureDomains[k], SanSeparator) && !Occurs(FixtureDomains[k], DnsPrefix)
  {
    forall k | 0 <= k < |FixtureDomains|
      ensures !Occurs(FixtureDomains[k], SanSeparator) && !Occurs(FixtureDomains[k], DnsPrefix)
    {
      assert ' ' !in FixtureDomains[k] && 'D' !in FixtureDomains[k];
      AbsentFirstChar(FixtureDomains[k], SanSeparator);
      AbsentFirstChar(FixtureDomains[k], DnsPrefix);
    }
  }

  /** The fixture's alternative-name text,
      `DNS:spatie.be, DNS:www.spatie.be, DNS:*.otherdomain.com`, is read
      back as its three domains in order, so the certificate is checked
      against the fixture's host list. */
  lemma FixtureCertificateHosts(c: SslCertificate)
    requires c.fields.subjectCommonName == "spatie.be"
    requires c.fields.subjectAltName == Some(SanText(FixtureDomains))
    ensures GetAdditionalDomains(c) == FixtureDomains
    ensures CertificateHosts(c) == FixtureHosts
  {
    FixtureDomainsClean();
    AdditionalDomainsRoundTrip(FixtureDomains);
  }

  /** The wildcard name is `*.` in front of its base. */
  lemma WildcardName()
    ensures FixtureHosts[3] == "*." + "otherdomain.com"
  {
  }

  /** One covering certificate host is enough. */
  lemma CoveredBy(hosts: seq<string>, i: nat, h: string)
    requires i < |hosts| && WildcardHostCoversHost(hosts[i], h)
    ensures CoversAny(hosts, h)
  {
  }

  /** The plain names cover themselves. */
  lemma CoversSpatie()
    ensures CoversAny(FixtureHosts, "spatie.be")
    ensures CoversAny(FixtureHosts, "www.spatie.be")
  {
    CoveredBy(FixtureHosts, 0, "spatie.be");
    CoveredBy(FixtureHosts, 2, "www.spatie.be");
  }

  /** The wildcard covers its own base domain. */
  lemma CoversOtherDomain()
    ensures CoversAny(FixtureHosts, "otherdomain.com")
  {
    WildcardName();
    WildcardCoversBaseDomain("otherdomain.com");
    CoveredBy(FixtureHosts, 3, "otherdomain.com");
  }

  /** The wildcard covers one label in front of its base, such as `www` or
      `another`. */
  lemma CoversOneLabel(first: string)
    requires '.' !in first
    ensures CoversAny(FixtureHosts, first + "." + "otherdomain.com")
  {
    WildcardName();
    WildcardCoversOneLabel(first, "otherdomain.com");
    CoveredBy(FixtureHosts, 3, first + "." + "otherdomain.com");
  }

  /** A list whose names before the last are plain and differ from `h`
      covers `h` only through its last name. */
  lemma OnlyLastIsWildcard(hosts: seq<string>, h: string)
    requires |hosts| > 0
    requires forall i :: 0 <= i < |hosts| - 1 ==> |hosts[i]| > 0 && hosts[i][0] != '*' && hosts[i] != h
    requires !WildcardHostCoversHost(hosts[|hosts| - 1], h)
    ensures !CoversAny(hosts, h)
  {
    forall i | 0 <= i < |hosts| - 1
      ensures !WildcardHostCoversHost(hosts[i], h)
    {
      PlainHostCoversOnlyItself(hosts[i], h);
    }
  }

  /** The fixture covers a host other than its plain names only through
      its wildcard. */
  lemma NotCoveredByFixture(h: string)
    requires h != "spatie.be" && h != "www.spatie.be"
    requires !WildcardHostCoversHost(FixtureHosts[3], h)
    ensures !CoversAny(FixtureHosts, h)
  {
    assert "spatie.be"[0] == 's' && "www.spatie.be"[0] == 'w';
    OnlyLastIsWildcard(FixtureHosts, h);
  }

  /** Two labels in front of the wildcard's base are not covered. */
  lemma NotCoversTwoLabels(x: string, y: string)
    ensures !CoversAny(FixtureHosts, x + "." + y + "." + "otherdomain.com")
  {
    var h := x + "." + y + "." + "otherdomain.com";
    WildcardCoversNoDeeper(x, y, "otherdomain.com");
    WildcardName();
    assert |h| >= 17;
    NotCoveredByFixture(h);
  }

  /** A host that does not end in the wildcard's base is covered only by a
      plain name. */
  lemma NotCoversUnrelated(h: string)
    requires h != "spatie.be" && h != "www.spatie.be" && h != FixtureHosts[3]
    requires !EndsWith(h, "otherdomain.com")
    ensures !CoversAny(FixtureHosts, h)
  {
    WildcardName();
    assert Drop(FixtureHosts[3], 2) == "otherdomain.com";
    NoSuffixNotCovered(FixtureHosts[3], h);
    NotCoveredByFixture(h);
  }

  lemma NotCoversFacebook()
    ensures !CoversAny(FixtureHosts, "facebook.com")
  {
    NotCoversUnrelated("facebook.com");
  }

  lemma NotCoversAnotherSpatie()
    ensures !CoversAny(FixtureHosts, "another.spatie.be")
  {
    var h := "another.spatie.be";
    assert h[|h| - 15..][5] == '.';
    NotCoversUnrelated(h);
  }

  lemma NotCoversSpatieFacebook()
    ensures !CoversAny(FixtureHosts, "spatie.be.facebook.com")
  {
    var h := "spatie.be.facebook.com";
    assert h[|h| - 15..][0] == 'b';
    NotCoversUnrelated(h);
  }

  /** The boundary instants of the validity tests: five minutes before the
      start, one minute after it, one minute before the end, one minute after
      it. */
  lemma FixtureWindowBoundaries()
    ensures !Validity.IsValidDate(FixtureWindow, 1463676300)
    ensures Validity.IsValidDate(FixtureWindow, 1463676660)
    ensures Validity.IsValidDate(FixtureWindow, 1471452540)
    ensures !Validity.IsValidDate(FixtureWindow, 1471452660)
    ensures !Validity.IsExpired(FixtureWindow, 1471452540)
    ensures Validity.IsExpired(FixtureWindow, 1471452660)
  {
  }

  /** A certificate found on its list after the check is revoked, reports a
      revocation instant, and is never valid. */
  lemma RevokedFixture(env: Urls.UrlServices, d: DownloadResults, link: string,
                       download: string -> seq<RevokedEntry>, now: int)
    requires d.cert.crlDistributionPoints.Some?
    requires ParseCrlLinks(d.cert.crlDistributionPoints.value) == [link]
    requires |download(link)| > 0 && download(link)[0].userCertificate == d.cert.serialNumber
    ensures var c := WithSslCrlCheck(FromDownload(d), download);
      && IsRevoked(c) == Some(true)
      && GetCrlRevokedTime(c) == Some(download(link)[0].revocationDate)
      && IsValid(env, c, now, None) != Success(true)
  {
    var c0 := FromDownload(d);
    CrlCheckRevokes(c0, download, 0);
  }
}
