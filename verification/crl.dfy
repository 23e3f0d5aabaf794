/** Certificate revocation lists as `src/SslCertificate.php` reads them: the
    distribution-point links taken out of the certificate's extension text,
    and the search of a downloaded list for the certificate's serial. */
module Crl {
  import opened Wrappers
  import opened PhpStrings

  /** The marker in front of each distribution point in the extension text. */
  const FullNameMarker: string := "Full Name:"

  /** The marker in front of a link inside one distribution point. */
  const UriMarker: string := "URI:"

  /** `extractCrlLinks`: the trimmed text after the first `URI:` of a
      distribution point, up to the next `URI:` if there is one. Without any
      `URI:` the code reads an index that does not exist, which raises a
      notice and yields `null`, and `trim(null)` is the empty string. */
  function ExtractCrlLink(item: string): string {
    var pieces := Split(item, UriMarker);
    if |pieces| >= 2 then Trim(pieces[1]) else ""
  }

  /** `parseCrlLinks`: split the extension text at every `Full Name:`, drop
      what comes before the first one, and take the link out of each piece.
      There is one link per occurrence of the marker, and none without it. */
  function ParseCrlLinks(raw: string): (links: seq<string>)
    ensures |links| == OccurrenceCount(raw, FullNameMarker)
    ensures links == [] <==> !Occurs(raw, FullNameMarker)
    ensures |links| == |Split(raw, FullNameMarker)| - 1
    ensures forall k :: 0 <= k < |links| ==> links[k] == ExtractCrlLink(Split(raw, FullNameMarker)[k + 1])
  {
    FullNameMarkerBorderFree();
    SplitCount(raw, FullNameMarker);
    var items := Split(raw, FullNameMarker)[1..];
    seq(|items|, k requires 0 <= k < |items| => ExtractCrlLink(items[k]))
  }

  /** An entry of a downloaded revocation list: the revoked serial and the
      instant of revocation. */
  datatype RevokedEntry = RevokedEntry(userCertificate: nat, revocationDate: int)

  /** The index of the first entry at or after `k` that revokes `serial`. */
  function FirstRevokedFrom(entries: seq<RevokedEntry>, serial: nat, k: nat): (r: Option<nat>)
    ensures r.Some? ==> k <= r.value < |entries| && entries[r.value].userCertificate == serial
    ensures forall j :: k <= j < |entries| && (r.None? || j < r.value) ==> entries[j].userCertificate != serial
    decreases |entries| - k
  {
    if k >= |entries| then None
    else if entries[k].userCertificate == serial then Some(k)
    else FirstRevokedFrom(entries, serial, k + 1)
  }

  /** The loop of `withSslCrlCheck`: the first entry that revokes `serial`. */
  function FirstRevoked(entries: seq<RevokedEntry>, serial: nat): (r: Option<nat>)
    ensures r.Some? ==> r.value < |entries| && entries[r.value].userCertificate == serial
    ensures r.Some? ==> forall j :: 0 <= j < r.value ==> entries[j].userCertificate != serial
    ensures r.None? <==> forall j :: 0 <= j < |entries| ==> entries[j].userCertificate != serial
  {
    FirstRevokedFrom(entries, serial, 0)
  }

  /** What the certificate knows about its revocation: the downloaded list,
      whether the serial was found on it (`null` before any check), and when
      it was revoked. */
  datatype RevocationState = RevocationState(
    crl: Option<seq<RevokedEntry>>,
    revoked: Option<bool>,
    revokedTime: Option<int>)

  /** The state of a freshly built certificate. */
  const Unchecked: RevocationState := RevocationState(None, None, None)

  // ----- Properties -----

  lemma FullNameMarkerBorderFree()
    ensures BorderFree(FullNameMarker)
  {
    FirstCharUniqueIsBorderFree(FullNameMarker);
  }

  lemma UriMarkerBorderFree()
    ensures BorderFree(UriMarker)
  {
    FirstCharUniqueIsBorderFree(UriMarker);
  }

  /** One link per `Full Name:` marker, in order, whatever comes before the
      first marker: for an extension text made of a preamble and
      distribution points, each free of the marker, the links are those of the
      distribution points. */
  lemma ParseCrlLinksOnePerMarker(preamble: string, points: seq<string>)
    requires !Occurs(preamble, FullNameMarker)
    requires forall k :: 0 <= k < |points| ==> !Occurs(points[k], FullNameMarker)
    ensures ParseCrlLinks(Join([preamble] + points, FullNameMarker)) ==
      seq(|points|, k requires 0 <= k < |points| => ExtractCrlLink(points[k]))
  {
    var parts := [preamble] + points;
    FullNameMarkerBorderFree();
    assert forall k :: 0 <= k < |parts| ==> !Occurs(parts[k], FullNameMarker) by {
      forall k | 0 <= k < |parts|
        ensures !Occurs(parts[k], FullNameMarker)
      {
        if k > 0 {
          assert parts[k] == points[k - 1];
        }
      }
    }
    SplitJoin(parts, FullNameMarker);
    assert parts[1..] == points;
  }

  /** An extension text without any marker yields no links. */
  lemma ParseCrlLinksWithoutMarker(raw: string)
    requires !Occurs(raw, FullNameMarker)
    ensures ParseCrlLinks(raw) == []
  {
  }

  /** The link of a distribution point is the text between its first and its
      second `URI:` (or the end), with surrounding white space removed. */
  lemma ExtractBetweenUriMarkers(lead: string, link: string, more: seq<string>)
    requires !Occurs(lead, UriMarker) && !Occurs(link, UriMarker)
    requires forall k :: 0 <= k < |more| ==> !Occurs(more[k], UriMarker)
    ensures ExtractCrlLink(Join([lead, link] + more, UriMarker)) == Trim(link)
  {
    var parts := [lead, link] + more;
    SeparatorFreePair(lead, link, more, UriMarker);
    UriMarkerBorderFree();
    SecondPiece(parts, UriMarker);
  }

  /** The second piece `explode` finds in an `implode` is the second part. */
  lemma SecondPiece(parts: seq<string>, sep: string)
    requires |sep| > 0 && BorderFree(sep)
    requires |parts| >= 2
    requires forall k :: 0 <= k < |parts| ==> !Occurs(parts[k], sep)
    ensures |Split(Join(parts, sep), sep)| >= 2
    ensures Split(Join(parts, sep), sep)[1] == parts[1]
  {
    SplitJoin(parts, sep);
  }

  /** A distribution point such as `\n  URI:http://crl.example/a.crl\n`
      yields exactly its link. */
  lemma ExtractPaddedLink(lead: string, link: string, pad: string)
    requires !Occurs(lead, UriMarker) && !Occurs(link + pad, UriMarker)
    requires AllTrimChars(pad)
    requires |link| > 0 ==> !IsTrimChar(link[0]) && !IsTrimChar(link[|link| - 1])
    ensures ExtractCrlLink(lead + UriMarker + (link + pad)) == link
  {
    ExtractBetweenUriMarkers(lead, link + pad, []);
    assert Join([lead, link + pad], UriMarker) == lead + UriMarker + (link + pad);
    TrimPadded("", link, pad);
    assert "" + link + pad == link + pad;
  }

  /** A distribution point without any `URI:` yields the empty link. */
  lemma ExtractWithoutUri(item: string)
    requires !Occurs(item, UriMarker)
    ensures ExtractCrlLink(item) == ""
  {
  }
}
