/** Host-name coverage of `src/SslCertificate.php`: whether one name a
    certificate is issued for covers a candidate host, exactly or by a
    leading wildcard, and whether any of the certificate's names does. */
module HostMatching {
  import opened PhpStrings

  /** `wildcardHostCoversHost`: an identical host is always covered; otherwise
      the certificate host must begin with `*`, must have at least as many dots
      as the candidate, and the candidate must end with what is left after
      the first two characters are cut off. */
  predicate WildcardHostCoversHost(wildcardHost: string, host: string) {
    if host == wildcardHost then true
    else if !StartsWith(wildcardHost, "*") then false
    else CountChar(wildcardHost, '.') >= CountChar(host, '.') && EndsWith(host, Drop(wildcardHost, 2))
  }

  /** The loop of `appliesToUrl`: walk the certificate hosts in order and stop
      at the first one that is identical to the candidate or covers it. */
  function CoversAny(certificateHosts: seq<string>, host: string): (r: bool)
    ensures r <==> exists i :: 0 <= i < |certificateHosts| && WildcardHostCoversHost(certificateHosts[i], host)
  {
    if |certificateHosts| == 0 then false
    else if host == certificateHosts[0] then true
    else if WildcardHostCoversHost(certificateHosts[0], host) then true
    else
      var rest := CoversAny(certificateHosts[1..], host);
      assert forall i :: 1 <= i < |certificateHosts| ==> certificateHosts[i] == certificateHosts[1..][i - 1];
      rest
  }

  // ----- Properties of a single certificate host -----

  /** The wildcard test looks at the first character alone. */
  lemma StartsWithStar(w: string)
    ensures StartsWith(w, "*") <==> |w| > 0 && w[0] == '*'
  {
    if |w| > 0 {
      assert w[..1] == [w[0]];
    }
  }

  /** For a certificate host longer than two characters, coverage is identity,
      or a leading `*`, no more dots in the candidate, and the candidate ending
      with the certificate host minus its first two characters. A wildcard of
      at most two characters leaves an empty suffix, which only the empty
      candidate ends with. */
  lemma CoversCharacterisation(w: string, h: string)
    ensures |w| > 2 ==> (WildcardHostCoversHost(w, h) <==>
      h == w ||
      (w[0] == '*' && CountChar(w, '.') >= CountChar(h, '.') &&
       |w| - 2 <= |h| && h[|h| - (|w| - 2)..] == w[2..]))
    ensures |w| <= 2 ==> (WildcardHostCoversHost(w, h) <==>
      h == w || (|w| > 0 && w[0] == '*' && h == ""))
  {
    StartsWithStar(w);
    if |w| > 2 {
      assert Drop(w, 2) == w[2..];
    } else {
      assert Drop(w, 2) == "";
    }
  }

  /** A certificate host that does not start with `*` covers only the
      identical host. */
  lemma PlainHostCoversOnlyItself(w: string, h: string)
    requires |w| == 0 || w[0] != '*'
    ensures WildcardHostCoversHost(w, h) <==> h == w
  {
    StartsWithStar(w);
  }

  /** The wildcard check looks at the first character only but always cuts
      off two: `*` followed by any character `c` and a base `d` covers exactly
      the hosts that end with `d` and have at most one dot before it (none
      when `c` is not a dot), besides the certificate host itself. */
  lemma WildcardCoverage(c: char, d: string, h: string)
    requires |d| > 0
    ensures WildcardHostCoversHost(['*', c] + d, h) <==>
      h == ['*', c] + d ||
      (|d| <= |h| && h[|h| - |d|..] == d &&
       CountChar(h[..|h| - |d|], '.') <= (if c == '.' then 1 else 0))
  {
    var w := ['*', c] + d;
    StartsWithStar(w);
    assert Drop(w, 2) == d;
    CountCharAppend(['*', c], d, '.');
    assert CountChar(['*', c], '.') == (if c == '.' then 1 else 0);
    if |d| <= |h| && h[|h| - |d|..] == d {
      assert h == h[..|h| - |d|] + d;
      CountCharAppend(h[..|h| - |d|], d, '.');
    }
  }

  /** Strings stand for PHP's byte strings, so a UTF-8 `ü` is the two bytes
      C3 BC, and cutting off two characters after `*` cuts into it: `*ü.com`
      does not cover `a.com`, but covers the text of the byte BC followed by
      `.com`. */
  lemma WildcardCutsBytes()
    ensures !WildcardHostCoversHost("*\U{C3}\U{BC}.com", "a.com")
    ensures WildcardHostCoversHost("*\U{C3}\U{BC}.com", "\U{BC}.com")
  {
    var d := "\U{BC}.com";
    assert "*\U{C3}\U{BC}.com" == ['*', '\U{C3}'] + d;
    WildcardCoverage('\U{C3}', d, "a.com");
    WildcardCoverage('\U{C3}', d, d);
    assert d[..0] == "";
  }

  /** A host that is not the certificate host itself and does not end with
      what follows its first two characters is never covered. */
  lemma NoSuffixNotCovered(w: string, h: string)
    requires h != w && !EndsWith(h, Drop(w, 2))
    ensures !WildcardHostCoversHost(w, h)
  {
  }

  /** `*.d` covers the bare base domain `d` itself. */
  lemma WildcardCoversBaseDomain(d: string)
    requires |d| > 0
    ensures WildcardHostCoversHost("*." + d, d)
  {
    WildcardCoverage('.', d, d);
    assert "*." + d == ['*', '.'] + d;
    assert d[..0] == "";
  }

  /** `*.d` covers one further label in front of `d`. */
  lemma WildcardCoversOneLabel(first: string, d: string)
    requires |d| > 0
    requires '.' !in first
    ensures WildcardHostCoversHost("*." + d, first + "." + d)
  {
    var h := first + "." + d;
    WildcardCoverage('.', d, h);
    assert "*." + d == ['*', '.'] + d;
    assert h[|h| - |d|..] == d;
    assert h[..|h| - |d|] == first + ".";
    CountCharAppend(first, ".", '.');
  }

  /** `*.d` never covers a host two or more labels deeper than `d`. */
  lemma WildcardCoversNoDeeper(x: string, y: string, d: string)
    requires |d| > 0
    ensures !WildcardHostCoversHost("*." + d, x + "." + y + "." + d)
  {
    var h := x + "." + y + "." + d;
    var w := "*." + d;
    WildcardCoverage('.', d, h);
    assert w == ['*', '.'] + d;
    assert h[|h| - |d|..] == d;
    assert h[..|h| - |d|] == x + "." + y + ".";
    CountCharAppend(x + "." + y, ".", '.');
    CountCharAppend(x + ".", y, '.');
    CountCharAppend(x, ".", '.');
  }

  /** The suffix test ignores label boundaries: `*.d` covers any dot-free
      text glued directly onto `d`. */
  lemma WildcardIgnoresLabelBoundary(x: string, d: string)
    requires |d| > 0
    requires '.' !in x
    ensures WildcardHostCoversHost("*." + d, x + d)
  {
    var h := x + d;
    WildcardCoverage('.', d, h);
    assert "*." + d == ['*', '.'] + d;
    assert h[|h| - |d|..] == d;
    assert h[..|h| - |d|] == x;
  }

  // ----- Properties of the whole host list -----

  /** Coverage by a concatenation of host lists is coverage by either part. */
  lemma CoversAnyAppend(a: seq<string>, b: seq<string>, h: string)
    ensures CoversAny(a + b, h) <==> CoversAny(a, h) || CoversAny(b, h)
  {
    if CoversAny(b, h) {
      var i :| 0 <= i < |b| && WildcardHostCoversHost(b[i], h);
      assert (a + b)[|a| + i] == b[i];
    }
    if CoversAny(a, h) {
      var i :| 0 <= i < |a| && WildcardHostCoversHost(a[i], h);
      assert (a + b)[i] == a[i];
    }
  }

  /** The answer does not depend on the order (or the multiplicity) of the
      certificate hosts: lists with the same elements agree. */
  lemma CoversAnyOrderIndependent(a: seq<string>, b: seq<string>, h: string)
    requires forall x :: x in a <==> x in b
    ensures CoversAny(a, h) == CoversAny(b, h)
  {
    if CoversAny(a, h) {
      var i :| 0 <= i < |a| && WildcardHostCoversHost(a[i], h);
      assert a[i] in b;
      var j :| 0 <= j < |b| && b[j] == a[i];
    }
    if CoversAny(b, h) {
      var i :| 0 <= i < |b| && WildcardHostCoversHost(b[i], h);
      assert b[i] in a;
      var j :| 0 <= j < |a| && a[j] == b[i];
    }
  }
}
