/** The domain a spend or a certificate is for: the host of a note URL, of a bech32 LNURL, or a bare host. */
module Hosts {
  import opened Prelude
  import opened Text
  import Bech32
  import Checksum

  /**
   What is taken of the URL parser and of UTF-8: the host of a text that names more than a host, lower-cased, and the
   text some bytes spell.
   */
  datatype Reader = Reader(urlHost: string -> Option<string>, text: Bytes -> Option<string>, utf8: string -> Bytes)

  /** A text in which a URL parser finds no path, query, fragment, user or bracketed address, only a host and a port. */
  predicate IsHostOnly(t: string) {
    && (forall i :: 0 <= i < |t| ==> t[i] !in {'/', '?', '#', '@', '\t', '\n', '\r'})
    && !('[' in t && ']' in t)
  }

  /** The text before the first colon. */
  function UpToColon(t: string): (host: string)
    ensures |host| <= |t| && host == t[..|host|] && ':' !in host
    ensures |host| < |t| ==> t[|host|] == ':'
  {
    if t == "" || t[0] == ':' then "" else [t[0]] + UpToColon(t[1..])
  }

  /** `urlparse("https://" + t).hostname`, lower-cased, of such a text. A lone bracket makes the parser refuse it. */
  function HostOnly(t: string): (host: Option<string>)
    ensures host.Some? ==> host.value != "" && |host.value| <= |t|
  {
    if '[' in t || ']' in t || UpToColon(t) == "" then None else Some(Lower(UpToColon(t)))
  }

  function UrlHost(reader: Reader, t: string): Option<string> {
    if IsHostOnly(t) then HostOnly(t) else reader.urlHost(t)
  }

  /** `is_bech32_lnurl`. */
  predicate IsLnurl(s: string) {
    "LNURL1" <= Upper(Strip(s))
  }

  /** `from_bech32_lnurl`, of a text that is one. */
  function FromLnurl(reader: Reader, s: string): Option<string> {
    match Bech32.Decode(Lower(Strip(s)), Bech32.LIMIT, Checksum.BECH32)
    case None => None
    case Some(d) => if d.hrp != "lnurl" then None else reader.text(d.payload)
  }

  /** `spend_domain_of`: `None` where it raises. */
  function SpendDomainOf(reader: Reader, value: string): Option<string> {
    DomainOf(reader, Strip(value), FromLnurl(reader, Strip(value)))
  }

  /** The domain of a stripped text, given what it spells if it is a bech32 LNURL. */
  function DomainOf(reader: Reader, trimmed: string, spelled: Option<string>): Option<string> {
    if !IsLnurl(trimmed) then UrlHost(reader, trimmed)
    else UrlHost(reader, if spelled.Some? then spelled.value else "")
  }

  // ---- reading a host again ----

  /** Everything a URL parser can return as a host. */
  predicate HostShaped(h: string) {
    h != "" && Lower(h) == h && IsHostOnly(h)
  }

  ghost predicate HostOfText(t: string, host: Option<string>) {
    host.Some? ==> HostShaped(host.value) && |host.value| <= |t|
  }

  ghost predicate TextOfBytes(b: Bytes, t: Option<string>) {
    t.Some? ==> |t.value| <= |b|
  }

  /** A host is part of the text it is the host of, and text takes at least a byte a character. */
  ghost predicate WellRead(reader: Reader) {
    && (forall t :: HostOfText(t, reader.urlHost(t)))
    && (forall b :: TextOfBytes(b, reader.text(b)))
  }

  /** A host that a second reading leaves alone. */
  predicate ReadsAsItself(h: string) {
    ':' !in h && '[' !in h && ']' !in h && !IsLnurl(h) && Strip(h) == h
  }

  lemma StripWithin(s: string)
    ensures |Strip(s)| <= |s| && (|Strip(s)| == |s| ==> Strip(s) == s)
    ensures forall c :: c in Strip(s) ==> c in s
  {
    var r := StripRight(s);
    assert forall c :: c in StripLeft(r) ==> c in r;
    assert forall c :: c in r ==> c in s;
  }

  lemma WithinIsHostOnly(t: string, s: string)
    requires IsHostOnly(s) && forall c :: c in t ==> c in s
    ensures IsHostOnly(t)
  {
    forall i | 0 <= i < |t| ensures t[i] !in {'/', '?', '#', '@', '\t', '\n', '\r'} { assert t[i] in t; }
  }

  /** Only a host with no colon and no bracket in it is the host of itself. */
  lemma HostOnlyOfItself(h: string, t: string)
    requires Lower(h) == h && |t| <= |h| && (|t| == |h| ==> t == h)
    ensures HostOnly(t) == Some(h) <==> h != "" && t == h && ':' !in h && '[' !in h && ']' !in h
  {
    var host := UpToColon(t);
    if |host| == |t| {
      assert host == t;
    }
  }

  /** A bech32 LNURL is longer than anything it spells. */
  lemma LnurlIsLonger(reader: Reader, s: string)
    requires WellRead(reader)
    ensures FromLnurl(reader, s).Some? ==> |FromLnurl(reader, s).value| < |s|
  {
    var lowered := Lower(Strip(s));
    StripWithin(s);
    if Bech32.Decode(lowered, Bech32.LIMIT, Checksum.BECH32).Some? {
      var d := Bech32.Decode(lowered, Bech32.LIMIT, Checksum.BECH32).value;
      Bech32.DecodedEncodes(lowered, Bech32.LIMIT, Checksum.BECH32);
      EncodingLength(d.hrp, d.payload, lowered);
      TextIsShorter(reader, d.payload);
    }
  }

  lemma TextIsShorter(reader: Reader, b: Bytes)
    requires WellRead(reader)
    ensures reader.text(b).Some? ==> |reader.text(b).value| <= |b|
  {
    assert TextOfBytes(b, reader.text(b));
  }

  lemma EncodingLength(hrp: string, payload: Bytes, s: string)
    requires Bech32.Encode(hrp, payload, Bech32.LIMIT, Checksum.BECH32) == Ok(Lower(s))
    ensures |s| > |hrp| + |payload|
  {
    Bech32.GroupsBits(payload);
  }

  lemma UrlHostWithin(reader: Reader, t: string)
    requires WellRead(reader)
    ensures UrlHost(reader, t).Some? ==> |UrlHost(reader, t).value| <= |t|
  {
    assert HostOfText(t, reader.urlHost(t));
  }

  /**
   Exactly which hosts a second reading gives back: those with no colon or bracket in them, no whitespace around them,
   and no `lnurl1` in front.
   */
  lemma ReadTwiceExactly(reader: Reader, h: string)
    requires WellRead(reader) && HostShaped(h)
    ensures SpendDomainOf(reader, h) == Some(h) <==> ReadsAsItself(h)
  {
    StripWithin(h);
    LnurlIsLonger(reader, Strip(h));
    DomainOfHost(reader, h, Strip(h), FromLnurl(reader, Strip(h)));
    LnurlTrimmed(h);
  }

  lemma LnurlTrimmed(h: string)
    ensures IsLnurl(Strip(h)) <==> IsLnurl(h)
  {
    StripIdempotent(h);
  }

  lemma DomainOfHost(reader: Reader, h: string, trimmed: string, spelled: Option<string>)
    requires WellRead(reader) && HostShaped(h)
    requires |trimmed| <= |h| && (|trimmed| == |h| ==> trimmed == h) && forall c :: c in trimmed ==> c in h
    requires spelled.Some? ==> |spelled.value| < |trimmed|
    ensures DomainOf(reader, trimmed, spelled) == Some(h) <==>
            !IsLnurl(trimmed) && trimmed == h && ':' !in h && '[' !in h && ']' !in h
  {
    if IsLnurl(trimmed) {
      UrlHostWithin(reader, if spelled.Some? then spelled.value else "");
    } else {
      WithinIsHostOnly(trimmed, h);
      HostOnlyOfItself(h, trimmed);
    }
  }

  /** What a first reading gives is a host. */
  lemma DomainIsHostShaped(reader: Reader, value: string, host: string)
    requires WellRead(reader) && SpendDomainOf(reader, value) == Some(host)
    ensures HostShaped(host)
  {
    DomainOfTextShaped(reader, Strip(value), FromLnurl(reader, Strip(value)), host);
  }

  lemma DomainOfTextShaped(reader: Reader, trimmed: string, spelled: Option<string>, host: string)
    requires WellRead(reader) && DomainOf(reader, trimmed, spelled) == Some(host)
    ensures HostShaped(host)
  {
    UrlHostShaped(reader, trimmed);
    UrlHostShaped(reader, if spelled.Some? then spelled.value else "");
  }

  lemma UrlHostShaped(reader: Reader, t: string)
    requires WellRead(reader)
    ensures UrlHost(reader, t).Some? ==> HostShaped(UrlHost(reader, t).value)
  {
    assert HostOfText(t, reader.urlHost(t));
    if IsHostOnly(t) && HostOnly(t).Some? {
      var host := UpToColon(t);
      LowerIdempotent(host);
      assert forall c :: c in host ==> c in t;
      WithinIsHostOnly(host, t);
      LowerIsHostOnly(host);
    }
  }

  lemma LowerIsHostOnly(t: string)
    requires IsHostOnly(t) && '[' !in t && ']' !in t
    ensures IsHostOnly(Lower(t))
  {
    forall i | 0 <= i < |t| ensures LowerChar(t[i]) !in {'/', '?', '#', '@', '\t', '\n', '\r', '['} {
      assert t[i] in t;
    }
  }

  /** A scheme-less host and port, in any case and with whitespace around it, is the host in lower case. */
  lemma HostAndPort(reader: Reader, host: string, port: string, value: string)
    requires host != "" && ':' !in host && Strip(value) == host + ":" + port
    requires IsHostOnly(host + ":" + port) && '[' !in host + ":" + port && ']' !in host + ":" + port && !IsLnurl(value)
    ensures SpendDomainOf(reader, value) == Some(Lower(host))
  {
    LnurlTrimmed(value);
    TextAndPort(reader, Strip(value), FromLnurl(reader, Strip(value)), host, port);
  }

  lemma TextAndPort(reader: Reader, trimmed: string, spelled: Option<string>, host: string, port: string)
    requires trimmed == host + ":" + port && host != "" && ':' !in host
    requires IsHostOnly(trimmed) && '[' !in trimmed && ']' !in trimmed && !IsLnurl(trimmed)
    ensures DomainOf(reader, trimmed, spelled) == Some(Lower(host))
  {
    PlainText(reader, trimmed, spelled, host, |host|);
  }

  /** And so is a host alone. */
  lemma HostAlone(reader: Reader, host: string)
    requires host != "" && ':' !in host && '[' !in host && ']' !in host && Strip(host) == host
    requires IsHostOnly(host) && !IsLnurl(host)
    ensures SpendDomainOf(reader, host) == Some(Lower(host))
  {
    NoColonIsWhole(host);
    PlainText(reader, host, FromLnurl(reader, host), host, |host|);
  }

  lemma PlainText(reader: Reader, trimmed: string, spelled: Option<string>, host: string, n: nat)
    requires IsHostOnly(trimmed) && '[' !in trimmed && ']' !in trimmed && !IsLnurl(trimmed)
    requires host != "" && n <= |trimmed| && trimmed[..n] == host && ':' !in host
    requires n < |trimmed| ==> trimmed[n] == ':'
    ensures DomainOf(reader, trimmed, spelled) == Some(Lower(host))
  {
    if n < |trimmed| {
      FirstColon(trimmed, n);
    } else {
      assert trimmed == host;
      NoColonIsWhole(trimmed);
    }
  }

  /** A bech32 LNURL, in upper case as it is written, is read as the text it encodes. */
  lemma LnurlReadsAsItsText(reader: Reader, payload: Bytes, t: string, lnurl: string)
    requires Bech32.Encode("lnurl", payload, Bech32.LIMIT, Checksum.BECH32) == Ok(Lower(lnurl))
    requires Strip(lnurl) == lnurl && lnurl == Upper(Lower(lnurl)) && reader.text(payload) == Some(t)
    ensures SpendDomainOf(reader, lnurl) == UrlHost(reader, t)
  {
    LnurlDecodes("lnurl", payload, Lower(lnurl));
    StartsLnurl(payload, lnurl);
    SpelledOut(reader, lnurl, payload, t);
  }

  lemma LnurlDecodes(hrp: string, payload: Bytes, s: string)
    requires hrp == "lnurl" && Bech32.Encode(hrp, payload, Bech32.LIMIT, Checksum.BECH32) == Ok(s)
    ensures Bech32.Decode(s, Bech32.LIMIT, Checksum.BECH32) == Some(Bech32.Decoded(hrp, payload))
  {
    LnurlIsProper(hrp);
    Bech32.RoundTrip(hrp, payload, Bech32.LIMIT, Checksum.BECH32);
  }

  lemma LnurlIsProper(hrp: string)
    requires hrp == "lnurl"
    ensures Bech32.ProperHrp(hrp)
  {
  }

  lemma StartsLnurl(payload: Bytes, lnurl: string)
    requires Bech32.Encode("lnurl", payload, Bech32.LIMIT, Checksum.BECH32) == Ok(Lower(lnurl))
    requires Strip(lnurl) == lnurl && lnurl == Upper(Lower(lnurl))
    ensures IsLnurl(lnurl)
  {
    EncodingStarts("lnurl", payload, Lower(lnurl));
    UpperStarts("lnurl", Lower(lnurl), lnurl);
  }

  lemma EncodingStarts(hrp: string, payload: Bytes, s: string)
    requires Bech32.Encode(hrp, payload, Bech32.LIMIT, Checksum.BECH32) == Ok(s)
    ensures |s| > |hrp| && s[..|hrp|] == hrp && s[|hrp|] == '1'
  {
  }

  lemma UpperStarts(hrp: string, s: string, lnurl: string)
    requires hrp == "lnurl" && |s| > 5 && s[..5] == hrp && s[5] == '1' && lnurl == Upper(s) && Strip(lnurl) == lnurl
    ensures IsLnurl(lnurl)
  {
    assert Upper(lnurl)[..6] == "LNURL1";
  }

  lemma SpelledOut(reader: Reader, lnurl: string, payload: Bytes, t: string)
    requires Bech32.Decode(Lower(lnurl), Bech32.LIMIT, Checksum.BECH32) == Some(Bech32.Decoded("lnurl", payload))
    requires Strip(lnurl) == lnurl && IsLnurl(lnurl) && reader.text(payload) == Some(t)
    ensures SpendDomainOf(reader, lnurl) == UrlHost(reader, t)
  {
  }

  /** A bare host, with or without a port, is reduced to a domain without a colon. */
  lemma BareHostHasNoColon(reader: Reader, value: string, host: string)
    requires IsHostOnly(Strip(value)) && !IsLnurl(value) && SpendDomainOf(reader, value) == Some(host)
    ensures ':' !in host
  {
    LnurlTrimmed(value);
    BareTextHasNoColon(reader, Strip(value), FromLnurl(reader, Strip(value)), host);
  }

  lemma BareTextHasNoColon(reader: Reader, trimmed: string, spelled: Option<string>, host: string)
    requires IsHostOnly(trimmed) && !IsLnurl(trimmed) && DomainOf(reader, trimmed, spelled) == Some(host)
    ensures ':' !in host
  {
    LowerAddsNoColon(UpToColon(trimmed));
  }

  lemma LowerAddsNoColon(s: string)
    requires ':' !in s
    ensures ':' !in Lower(s)
  {
    forall i | 0 <= i < |s| ensures LowerChar(s[i]) != ':' { assert s[i] in s; }
  }

  // ---- hosts that are not read as themselves ----

  /** The host of `https://[2001:db8::1]/` is read again as `2001`. */
  lemma Ipv6IsMisread(reader: Reader)
    ensures SpendDomainOf(reader, "2001:db8::1") == Some("2001")
  {
    var h := "2001:db8::1";
    StripTrimmed(h);
    Ipv6IsHostOnly(h);
    Ipv6HasPort(h);
    DigitIsNoLnurl(h);
    PortIsDropped(h, "2001", 4);
  }

  /** A bare name of digits is a host. */
  lemma DigitsAreAHost(reader: Reader)
    ensures SpendDomainOf(reader, "2001") == Some("2001")
  {
    var h := "2001";
    StripTrimmed(h);
    DigitIsNoLnurl(h);
    PlainHost(h);
  }

  lemma PlainHost(h: string)
    requires h == "2001"
    ensures IsHostOnly(h) && HostOnly(h) == Some(h)
  {
    assert ':' !in h && '[' !in h && ']' !in h && Lower(h) == h;
    NoColonIsWhole(h);
  }

  lemma {:induction false} NoColonIsWhole(t: string)
    requires ':' !in t
    ensures UpToColon(t) == t
  {
    if t != "" {
      assert t[0] in t && t == [t[0]] + t[1..];
      NoColonIsWhole(t[1..]);
    }
  }

  lemma PortIsDropped(h: string, host: string, n: nat)
    requires 0 < n < |h| && h[n] == ':' && h[..n] == host && ':' !in host && Lower(host) == host
    requires '[' !in h && ']' !in h
    ensures HostOnly(h) == Some(host)
  {
    FirstColon(h, n);
  }

  lemma Ipv6IsHostOnly(h: string)
    requires h == "2001:db8::1"
    ensures IsHostOnly(h)
    ensures '[' !in h && ']' !in h
  {
  }

  lemma Ipv6HasPort(h: string)
    requires h == "2001:db8::1"
    ensures h[4] == ':' && h[..4] == "2001" && Lower("2001") == "2001" && ':' !in "2001"
  {
  }

  lemma DigitIsNoLnurl(h: string)
    requires h != "" && h[0] == '2' && Strip(h) == h
    ensures !IsLnurl(h)
  {
    assert Upper(h)[0] == '2';
  }

  lemma {:induction false} FirstColon(t: string, n: nat)
    requires n < |t| && t[n] == ':' && ':' !in t[..n]
    ensures UpToColon(t) == t[..n]
  {
    if n > 0 {
      assert t[0] == t[..n][0] && t[1..][..n - 1] == t[..n][1..];
      FirstColon(t[1..], n - 1);
      assert t[..n] == [t[0]] + t[1..][..n - 1];
    }
  }

  /** A host that starts with `lnurl1` is taken for a bech32 LNURL and names no domain. */
  lemma LnurlHostIsRefused(reader: Reader)
    ensures SpendDomainOf(reader, "lnurl1.example") == None
  {
    var h := "lnurl1.example";
    StripTrimmed(h);
    NoSuchLnurl(h);
    StartsAsLnurl(h);
  }

  lemma StartsAsLnurl(h: string)
    requires h == "lnurl1.example" && Strip(h) == h
    ensures IsLnurl(h)
  {
    assert Upper(h)[..6] == "LNURL1";
  }

  lemma NoSuchLnurl(h: string)
    requires h == "lnurl1.example"
    ensures Bech32.Decode(Lower(h), Bech32.LIMIT, Checksum.BECH32).None?
  {
    assert Lower(h) == h && h == "lnurl" + "1" + ".example";
    Bech32.LastOneAt("lnurl", ".example");
    assert h[6..][0] == '.' && Bech32.SymbolOf('.').None?;
  }
}
