/** What a SERVICE certifies about a note, and the offline check of a note URL against it. */
module Signature {
  import opened Prelude
  import opened Text
  import opened Primitives
  import opened Taproot
  import opened Certificates
  import opened Spends
  import opened Note
  import Bech32
  import Checksum
  import Cw1Frame
  import Hosts

  // ---- the messages ----

  /** What is certified now: `LNURLcash:<domain>:<amount>:<hex(Q)>`. */
  function Message(domain: string, amount: int, id: string): string {
    "LNURLcash:" + (domain + ":" + Numeral(amount) + ":" + id)
  }

  /** What used to be: no domain, over `hex(Q)` or a bearer note's `h`. */
  function LegacyMessage(amount: int, id: string): string {
    "LNURLcash:" + (Numeral(amount) + ":" + id)
  }

  /** The two messages as they are written. */
  lemma MessagesRead(domain: string, amount: nat, id: string)
    ensures Message(domain, amount, id) == "LNURLcash:" + domain + ":" + Decimal(amount) + ":" + id
    ensures LegacyMessage(amount, id) == "LNURLcash:" + Decimal(amount) + ":" + id
  {
    Associates("LNURLcash:", domain + ":" + Decimal(amount), ":" + id);
  }

  lemma NumeralHasNoColon(n: int)
    ensures ':' !in Numeral(n)
  {
    var digits := Decimal(if n >= 0 then n else -n);
    assert forall i :: 0 <= i < |digits| ==> IsDigit(digits[i]);
  }

  lemma Sign(n: int)
    ensures Numeral(n) != "" && (Numeral(n)[0] == '-' <==> n < 0)
  {
    if n >= 0 {
      assert IsDigit(Numeral(n)[0]);
    }
  }

  lemma NumeralInjective(m: int, n: int)
    requires Numeral(m) == Numeral(n)
    ensures m == n
  {
    Sign(m);
    Sign(n);
    if m >= 0 {
      DecimalInjective(m, n);
    } else {
      assert Numeral(m)[1..] == Decimal(-m) && Numeral(n)[1..] == Decimal(-n);
      DecimalInjective(-m, -n);
    }
  }

  /** A certificate's message names one domain, one amount and one note, although a host may contain colons. */
  lemma MessageInjective(d: string, m: int, i: string, e: string, n: int, j: string)
    requires |i| == |j| && Message(d, m, i) == Message(e, n, j)
    ensures d == e && m == n && i == j
  {
    SplitsAfter("LNURLcash:", d + ":" + Numeral(m) + ":" + i, e + ":" + Numeral(n) + ":" + j);
    SplitsAlike(d + ":" + Numeral(m) + ":", i, e + ":" + Numeral(n) + ":", j);
    SplitsAlike(d + ":" + Numeral(m), ":", e + ":" + Numeral(n), ":");
    NumeralHasNoColon(m);
    NumeralHasNoColon(n);
    LastColonSplits(d, Numeral(m), e, Numeral(n));
    NumeralInjective(m, n);
  }

  lemma LegacyMessageInjective(m: int, i: string, n: int, j: string)
    requires |i| == |j| && LegacyMessage(m, i) == LegacyMessage(n, j)
    ensures m == n && i == j
  {
    SplitsAfter("LNURLcash:", Numeral(m) + ":" + i, Numeral(n) + ":" + j);
    SplitsAlike(Numeral(m) + ":", i, Numeral(n) + ":", j);
    SplitsAlike(Numeral(m), ":", Numeral(n), ":");
    NumeralInjective(m, n);
  }

  /** And it is never a legacy message: what was signed without a domain is not read as signed for one. */
  lemma MessageIsNotLegacy(d: string, m: int, i: string, n: int, j: string)
    requires |i| == |j|
    ensures Message(d, m, i) != LegacyMessage(n, j)
  {
    LegacyHasNoDomain(d, m, i, n, j);
    NumeralHasNoColon(n);
  }

  lemma LegacyHasNoDomain(d: string, m: int, i: string, n: int, j: string)
    requires |i| == |j|
    ensures Message(d, m, i) == LegacyMessage(n, j) ==> ':' in Numeral(n)
  {
    if Message(d, m, i) == LegacyMessage(n, j) {
      SplitsAfter("LNURLcash:", d + ":" + Numeral(m) + ":" + i, Numeral(n) + ":" + j);
      SplitsAlike(d + ":" + Numeral(m) + ":", i, Numeral(n) + ":", j);
      SplitsAlike(d + ":" + Numeral(m), ":", Numeral(n), ":");
      assert Numeral(n)[|d|] == ':';
    }
  }

  // ---- the certificate ----

  /** How a domain is read off a URL or a host, and text written as bytes. */
  datatype Site = Site(reduce: string -> Option<string>, utf8: string -> Bytes)

  /** As the library reads them. */
  function SiteOf(reader: Hosts.Reader): Site {
    Site((value: string) => Hosts.SpendDomainOf(reader, value), reader.utf8)
  }

  /** A Lightning node's signmessage. */
  function SignedPreimage(message: Bytes): Bytes {
    Ascii("Lightning Signed Message:") + message
  }

  function Digest(w: Crypto, site: Site, message: string): Bytes32 {
    w.sha256(w.sha256(SignedPreimage(site.utf8(message))))
  }

  /** Two inputs that collide whenever two different messages have one digest. */
  function DigestCollision(w: Crypto, a: Bytes, b: Bytes): Collision {
    if w.sha256(SignedPreimage(a)) == w.sha256(SignedPreimage(b)) then Collision(SignedPreimage(a), SignedPreimage(b))
    else Collision(w.sha256(SignedPreimage(a)), w.sha256(SignedPreimage(b)))
  }

  ghost predicate EncodesText(site: Site) {
    forall s, t :: site.utf8(s) == site.utf8(t) ==> s == t
  }

  /** One digest, one note at one domain for one amount, or an explicit collision. */
  lemma DigestBinds(w: Crypto, site: Site, d: string, m: int, i: string, e: string, n: int, j: string)
    requires EncodesText(site) && |i| == |j|
    requires Digest(w, site, Message(d, m, i)) == Digest(w, site, Message(e, n, j))
    ensures (d == e && m == n && i == j) ||
            Collides(w.sha256, DigestCollision(w, site.utf8(Message(d, m, i)), site.utf8(Message(e, n, j))))
  {
    var a, b := site.utf8(Message(d, m, i)), site.utf8(Message(e, n, j));
    if a == b {
      MessageInjective(d, m, i, e, n, j);
    } else {
      SignedPreimageInjective(a, b);
    }
  }

  lemma SignedPreimageInjective(a: Bytes, b: Bytes)
    requires a != b
    ensures SignedPreimage(a) != SignedPreimage(b)
  {
    var n := |Ascii("Lightning Signed Message:")|;
    assert SignedPreimage(a)[n..] == a && SignedPreimage(b)[n..] == b;
  }

  /** A digest is a Lightning node's: the hash of the hash of its prefix and the message. */
  lemma DigestIs(w: Crypto, site: Site, message: string)
    ensures Digest(w, site, message) == w.sha256(w.sha256(Ascii("Lightning Signed Message:") + site.utf8(message)))
  {
  }

  /** Between two bytes of hex the six characters of ASCII whitespace are skipped, and nothing else is. */
  lemma SpacesSkipped(c: char, s: string)
    ensures c as int in {9, 10, 11, 12, 13, 32} ==> FromSpacedHex([c] + s) == FromSpacedHex(s)
    ensures c as int !in {9, 10, 11, 12, 13, 32} && !IsHexDigit(c) ==> FromSpacedHex([c] + s) == None
  {
    assert ([c] + s)[1..] == s;
  }

  predicate IsAsciiSpace(c: char) {
    '\t' <= c <= '\r' || c == ' '
  }

  /** `bytes.fromhex`, which skips spaces between bytes. */
  function FromSpacedHex(s: string): Option<Bytes> {
    if s == "" then Some([])
    else if IsAsciiSpace(s[0]) then FromSpacedHex(s[1..])
    else if |s| < 2 || !IsHexDigit(s[0]) || !IsHexDigit(s[1]) then None
    else
      match FromSpacedHex(s[2..])
      case None => None
      case Some(rest) => Some(FromHex(s[..2]) + rest)
  }

  /** What a certificate from before amounts were stated holds: a fixed prefix, any `cs` prefix, or hex. */
  function LegacyBytes(trimmed: string): Option<Bytes> {
    LegacyFrom(trimmed, DecodeFixed("cs", trimmed, 65), Bech32.Decode(trimmed, Bech32.LIMIT, Checksum.BECH32M))
  }

  function LegacyFrom(trimmed: string, raw: Option<Bytes>, d: Option<Bech32.Decoded>): Option<Bytes> {
    if raw.Some? then raw
    else
      match d
      case Some(d) => if "cs" <= d.hrp && |d.payload| == 65 then Some(d.payload) else FromSpacedHex(trimmed)
      case None => FromSpacedHex(trimmed)
  }

  function SixtyFive(raw: Option<Bytes>): (r: Option<Bytes>)
    ensures r.Some? ==> |r.value| == 65 && r == raw
  {
    if raw.Some? && |raw.value| == 65 then raw else None
  }

  /** A certificate that states an amount must state this one. */
  function StatedBytes(current: Option<Cs1>, amount: int, legacy: Option<Bytes>): (raw: Option<Bytes>)
    ensures raw.Some? ==> |raw.value| == 65
  {
    match current
    case Some(c) => if c.amountMsat == amount then SixtyFive(Some(c.signature)) else None
    case None => SixtyFive(legacy)
  }

  /** `_certificate_bytes`. */
  function CertificateBytes(signature: string, amount: int, lenient: bool): (raw: Option<Bytes>)
    ensures raw.Some? ==> |raw.value| == 65
  {
    var trimmed := Strip(signature);
    StatedBytes(DecodeCs1WithAmount(trimmed), amount, if lenient then LegacyBytes(trimmed) else None)
  }

  /** A certificate from before amounts were stated: 65 bytes of hex, or of a `cs` string without an amount in it. */
  lemma LegacyFormsRead(raw: Bytes, amount: int, fixed: string)
    requires |raw| == 65 && EncodeFixed("cs", raw, 65) == Ok(fixed)
    ensures CertificateBytes(ToHex(raw), amount, true) == Some(raw)
    ensures CertificateBytes(fixed, amount, true) == Some(raw)
    ensures CertificateBytes(ToHex(raw), amount, false) == CertificateBytes(fixed, amount, false) == None
  {
    HexCertificateReads(raw, ToHex(raw));
    FixedCertificateReads("cs", raw, fixed);
  }

  /** Exactly what else: any `cs` string of 65 bytes, whatever its prefix goes on with, and otherwise only hex. */
  lemma LegacyBytesExactly(trimmed: string, d: Option<Bech32.Decoded>)
    requires Strip(trimmed) == trimmed && d == Bech32.Decode(trimmed, Bech32.LIMIT, Checksum.BECH32M)
    ensures LegacyBytes(trimmed) ==
            if d.Some? && |d.value.hrp| >= 2 && d.value.hrp[0] == 'c' && d.value.hrp[1] == 's' &&
               |d.value.payload| == 65
            then Some(d.value.payload)
            else FromSpacedHex(trimmed)
  {
    FixedIs("cs", trimmed, DecodeFixed("cs", trimmed, 65), d);
    LegacyFromExactly("cs", trimmed, DecodeFixed("cs", trimmed, 65), d);
  }

  lemma FixedIs(hrp: string, trimmed: string, raw: Option<Bytes>, d: Option<Bech32.Decoded>)
    requires Strip(trimmed) == trimmed && d == Bech32.Decode(trimmed, Bech32.LIMIT, Checksum.BECH32M)
    requires raw == DecodeFixed(hrp, trimmed, 65)
    ensures raw.Some? ==> |raw.value| == 65 && d == Some(Bech32.Decoded(hrp, raw.value))
  {
    if raw.Some? {
      FixedExactly(hrp, trimmed, 65, raw.value);
    }
  }

  lemma LegacyFromExactly(hrp: string, trimmed: string, raw: Option<Bytes>, d: Option<Bech32.Decoded>)
    requires hrp == "cs" && (raw.Some? ==> |raw.value| == 65 && d == Some(Bech32.Decoded(hrp, raw.value)))
    ensures LegacyFrom(trimmed, raw, d) ==
            if d.Some? && |d.value.hrp| >= 2 && d.value.hrp[0] == 'c' && d.value.hrp[1] == 's' &&
               |d.value.payload| == 65
            then Some(d.value.payload)
            else FromSpacedHex(trimmed)
  {
    if d.Some? && |d.value.hrp| >= 2 {
      StartsCs(d.value.hrp);
    }
  }

  lemma StartsCs(hrp: string)
    requires |hrp| >= 2
    ensures "cs" <= hrp <==> hrp[0] == 'c' && hrp[1] == 's'
  {
    assert hrp[..2] == [hrp[0], hrp[1]];
  }

  lemma HexCertificateReads(raw: Bytes, s: string)
    requires |raw| == 65 && s == ToHex(raw)
    ensures Strip(s) == s && DecodeCs1WithAmount(s).None? && LegacyBytes(s) == Some(raw)
  {
    assert IsHexDigit(s[0]) && IsHexDigit(s[129]);
    StripTrimmed(s);
    HexIsNoCs(s);
    SpacedHexReads(raw);
  }

  /** No `s` is a hex digit, so hex never reads under a `cs` prefix. */
  lemma HexIsNoCs(s: string)
    requires |s| == 130 && IsHex(s) && Strip(s) == s
    ensures Bech32.Decode(s, Bech32.LIMIT, Checksum.BECH32M).Some? ==>
              !("cs" <= Bech32.Decode(s, Bech32.LIMIT, Checksum.BECH32M).value.hrp)
  {
    if Bech32.Decode(s, Bech32.LIMIT, Checksum.BECH32M).Some? {
      var d := Bech32.Decode(s, Bech32.LIMIT, Checksum.BECH32M).value;
      Bech32.DecodedEncodes(s, Bech32.LIMIT, Checksum.BECH32M);
      StartsWithPrefix(s, d.hrp, d.payload);
      HexIsNoS(s[1]);
    }
  }

  lemma HexIsNoS(c: char)
    requires IsHexDigit(c)
    ensures LowerChar(c) != 's'
  {
  }

  lemma StartsWithPrefix(s: string, hrp: string, payload: Bytes)
    requires Bech32.Encode(hrp, payload, Bech32.LIMIT, Checksum.BECH32M) == Ok(Lower(s))
    ensures |hrp| <= |s| && forall i :: 0 <= i < |hrp| ==> LowerChar(s[i]) == hrp[i]
  {
  }

  lemma {:induction false} SpacedHexReads(raw: Bytes)
    ensures FromSpacedHex(ToHex(raw)) == Some(raw)
  {
    if raw != [] {
      var s := ToHex(raw);
      SpacedHexReads(raw[1..]);
      assert s[2..] == ToHex(raw[1..]) && s[..2] == ToHex(raw[..1]);
      FromToHex(raw[..1]);
      HexIsNoSpace(s[0]);
      assert raw == raw[..1] + raw[1..];
    }
  }

  lemma HexIsNoSpace(c: char)
    requires IsHexDigit(c)
    ensures !IsAsciiSpace(c)
  {
  }

  lemma FixedCertificateReads(hrp: string, raw: Bytes, fixed: string)
    requires |raw| == 65 && hrp == "cs" && EncodeFixed(hrp, raw, 65) == Ok(fixed)
    ensures Strip(fixed) == fixed && DecodeCs1WithAmount(fixed).None? && LegacyBytes(fixed) == Some(raw)
  {
    CsIsProper(hrp);
    FixedReadsBack(hrp, raw, 65, fixed);
    ReadsAsFixed(hrp, raw, fixed);
    FixedIsDecoded(hrp, raw, fixed);
    StatesNoAmount(hrp, Bech32.Decode(Strip(fixed), Bech32.LIMIT, Checksum.BECH32M), fixed);
  }

  lemma CsIsProper(hrp: string)
    requires hrp == "cs"
    ensures Bech32.ProperHrp(hrp)
  {
  }

  lemma ReadsAsFixed(hrp: string, raw: Bytes, fixed: string)
    requires hrp == "cs" && DecodeFixed(hrp, fixed, 65) == Some(raw)
    ensures LegacyBytes(fixed) == Some(raw)
  {
  }

  lemma FixedIsDecoded(hrp: string, raw: Bytes, fixed: string)
    requires DecodeFixed(hrp, fixed, 65) == Some(raw)
    ensures Bech32.Decode(Strip(fixed), Bech32.LIMIT, Checksum.BECH32M) == Some(Bech32.Decoded(hrp, raw))
  {
  }

  lemma StatesNoAmount(hrp: string, d: Option<Bech32.Decoded>, fixed: string)
    requires hrp == "cs" && d.Some? && d.value.hrp == hrp
    requires d == Bech32.Decode(Strip(fixed), Bech32.LIMIT, Checksum.BECH32M)
    ensures DecodeCs1WithAmount(fixed).None?
  {
    assert hrp[2..] == "";
  }

  /** A legacy certificate may carry its recovery id at either end, a current one only at the last. */
  lemma LayoutsExactly(w: Crypto, digest: Bytes32, raw: Bytes, bothLayouts: bool, mint: string)
    requires |raw| == 65
    ensures RecoversTo(w, digest, raw, bothLayouts, mint) <==>
            || RecoversUnder(w, digest, raw, mint)
            || (bothLayouts && RecoversUnder(w, digest, raw[1..65] + [raw[0]], mint))
  {
    assert raw[1..65] + [raw[0]] == raw[1..] + raw[..1];
  }

  predicate RecoversUnder(w: Crypto, digest: Bytes32, layout: Bytes, mint: string) {
    var recovered := w.recover(layout, digest);
    recovered.Some? && ToHex(recovered.value) == Lower(Strip(mint))
  }

  /** `_recovers_to`: recovery id last, or for a legacy message also first. */
  predicate RecoversTo(w: Crypto, digest: Bytes32, raw: Bytes, bothLayouts: bool, mint: string)
    requires |raw| == 65
  {
    RecoversUnder(w, digest, raw, mint) || (bothLayouts && RecoversUnder(w, digest, raw[1..] + raw[..1], mint))
  }

  predicate VerifyDigest(w: Crypto, digest: Bytes32, raw: Option<Bytes>, bothLayouts: bool, mint: string)
    requires raw.Some? ==> |raw.value| == 65
  {
    raw.Some? && RecoversTo(w, digest, raw.value, bothLayouts, mint)
  }

  /** `verify_note_signature_hash`. */
  predicate VerifyHash(w: Crypto, site: Site, id: string, domain: string, amount: int, signature: string,
                       mint: string) {
    && IsPreimage(id)
    && site.reduce(domain).Some?
    && VerifyDigest(w, Digest(w, site, Message(site.reduce(domain).value, amount, Lower(Strip(id)))),
                    CertificateBytes(signature, amount, false), false, mint)
  }

  /** `verify_legacy_note_signature_hash`. */
  predicate VerifyLegacyHash(w: Crypto, site: Site, id: string, amount: int, signature: string, mint: string) {
    && IsPreimage(id)
    && VerifyDigest(w, Digest(w, site, LegacyMessage(amount, Lower(Strip(id)))),
                    CertificateBytes(signature, amount, true), true, mint)
  }

  datatype Certification = NotCertified | OverQ | OverLegacyQ | OverHash

  /** The newest message that verified. */
  function Newest(overQ: bool, overLegacyQ: bool, overHash: bool): Certification {
    if overQ then OverQ else if overLegacyQ then OverLegacyQ else if overHash then OverHash else NotCertified
  }

  /** `_certified_over`. */
  function CertifiedOver(w: Crypto, site: Site, outputKey: string, bearerHash: Option<string>, domain: string,
                         amount: int, signature: string, mint: string): Certification
  {
    Newest(VerifyHash(w, site, outputKey, domain, amount, signature, mint),
           VerifyLegacyHash(w, site, outputKey, amount, signature, mint),
           bearerHash.Some? && VerifyLegacyHash(w, site, bearerHash.value, amount, signature, mint))
  }

  // ---- a spend and its certificate ----

  function BytesOf(site: Site, domain: Option<string>): Option<Bytes> {
    match domain
    case Some(d) => Some(site.utf8(d))
    case None => None
  }

  /** The `h` of a k1 whose leaf is a bearer hashlock. */
  ghost function LockOf(w: Crypto, k1: string): Option<Bytes32> {
    LockRead(DecodeSpend(w, k1))
  }

  /** The lock of what a k1 decodes to. */
  ghost function LockRead(decoded: Outcome<Spend>): Option<Bytes32> {
    match decoded
    case Returned(Some(spend)) =>
      if spend.kind == ScriptPath && spend.scriptPath.Some?
      then BearerHashOfLeaf(spend.scriptPath.value.script)
      else None
    case _ => None
  }

  function HexOf(h: Option<Bytes32>): Option<string> {
    if h.Some? then Some(ToHex(h.value)) else None
  }

  /** `verify_note_signature`. */
  ghost function VerifyNoteSignature(w: Crypto, site: Site, k1: string, domain: string, amount: int, signature: string,
                                     mint: string): Outcome<Certification>
  {
    match VerifySpend(w, k1, BytesOf(site, site.reduce(domain)))
    case Raised => Raised
    case Returned(None) => Returned(Some(NotCertified))
    case Returned(Some(v)) =>
      if v.unevaluated then Returned(Some(NotCertified))
      else
        Returned(Some(CertifiedOver(w, site, ToHex(v.outputKey), HexOf(LockOf(w, k1)), domain, amount, signature,
                                    mint)))
  }

  /** The amount a URL is checked at: what its certificate states, or what it declares. */
  function AmountOfUrl(numeral: string -> Option<int>, pairs: seq<Pair>): Option<int> {
    var certified := CertifiedAmount(NoteSignature(pairs));
    if certified.Some? then Some(certified.value) else NoteDeclaredAmount(numeral, pairs)
  }

  datatype Verdict = Verdict(amount: Option<int>, certification: Certification)

  /** `verify_note_url`, of a URL whose query parses to `pairs`. */
  ghost function VerifyNoteUrl(w: Crypto, site: Site, numeral: string -> Option<int>, url: string, pairs: seq<Pair>,
                               mint: string): Outcome<Verdict>
  {
    var k1, signature, domain := NoteK1(pairs), NoteSignature(pairs), site.reduce(url);
    if domain.None? || !Present(k1) || !Present(signature) then Returned(Some(Verdict(None, NotCertified)))
    else
      var amount := AmountOfUrl(numeral, pairs);
      if amount.None? then Returned(Some(Verdict(None, NotCertified)))
      else
        match VerifyNoteSignature(w, site, k1.value, domain.value, amount.value, signature.value, mint)
        case Raised => Raised
        case Returned(c) => Returned(Some(Verdict(amount, if c.Some? then c.value else NotCertified)))
  }

  predicate Present(value: Option<string>) {
    value.Some? && value.value != ""
  }

  // ---- what a verdict proves ----

  lemma HexIsCanonical(b: Bytes32)
    ensures IsPreimage(ToHex(b)) && SecretOf(ToHex(b)) == b
    ensures Strip(ToHex(b)) == ToHex(b) && Lower(ToHex(b)) == ToHex(b)
  {
    var s := ToHex(b);
    assert IsHexDigit(s[0]) && IsHexDigit(s[63]);
    StripTrimmed(s);
    FromToHex(b);
    ToFromHex(s);
  }

  /** The mint's key is given as hex, in either case and with whitespace around it, and it is the key recovered. */
  lemma MintKeyExactly(w: Crypto, digest: Bytes32, layout: Bytes, mint: string)
    requires |Strip(mint)| % 2 == 0 && IsHex(Strip(mint))
    ensures RecoversUnder(w, digest, layout, mint) <==> w.recover(layout, digest) == Some(FromHex(Strip(mint)))
  {
    ToFromHex(Strip(mint));
    if RecoversUnder(w, digest, layout, mint) {
      FromToHex(w.recover(layout, digest).value);
      FromToHex(FromHex(Strip(mint)));
    }
  }

  /** A certificate that states an amount, signed over a digest by the mint's key. */
  predicate StatesAndSigns(w: Crypto, digest: Bytes32, c: Option<Cs1>, amount: int, mint: string) {
    c.Some? && c.value.amountMsat == amount && RecoversUnder(w, digest, c.value.signature, mint)
  }

  /** The mint's key signed a current certificate: over this domain, amount and key, stating that amount. */
  ghost predicate SignedForQ(w: Crypto, site: Site, q: Bytes32, domain: string, amount: int, signature: string,
                             mint: string) {
    StatesAndSigns(w, Digest(w, site, Message(domain, amount, ToHex(q))), DecodeCs1WithAmount(Strip(signature)),
                   amount, mint)
  }

  /** The mint's key signed a legacy certificate over these 32 bytes and this amount. */
  ghost predicate SignedLegacy(w: Crypto, site: Site, id: Bytes32, amount: int, signature: string, mint: string) {
    VerifyDigest(w, Digest(w, site, LegacyMessage(amount, ToHex(id))), CertificateBytes(signature, amount, true), true,
                 mint)
  }

  lemma StatedExactly(w: Crypto, digest: Bytes32, amount: int, c: Option<Cs1>, mint: string)
    requires c.Some? ==> |c.value.signature| == 65
    ensures VerifyDigest(w, digest, StatedBytes(c, amount, None), false, mint) <==>
            StatesAndSigns(w, digest, c, amount, mint)
  {
  }

  lemma Cs1IsSixtyFive(value: string)
    ensures DecodeCs1WithAmount(value).Some? ==> |DecodeCs1WithAmount(value).value.signature| == 65
  {
  }

  lemma StrictExactly(w: Crypto, digest: Bytes32, signature: string, amount: int, mint: string)
    ensures VerifyDigest(w, digest, CertificateBytes(signature, amount, false), false, mint) <==>
            StatesAndSigns(w, digest, DecodeCs1WithAmount(Strip(signature)), amount, mint)
  {
    Cs1IsSixtyFive(Strip(signature));
    StatedExactly(w, digest, amount, DecodeCs1WithAmount(Strip(signature)), mint);
  }

  lemma HashVerifiesExactly(w: Crypto, site: Site, q: Bytes32, domain: string, amount: int, signature: string,
                            mint: string)
    ensures VerifyHash(w, site, ToHex(q), domain, amount, signature, mint) <==>
            site.reduce(domain).Some? && SignedForQ(w, site, q, site.reduce(domain).value, amount, signature, mint)
  {
    HexIsCanonical(q);
    if site.reduce(domain).Some? {
      StrictExactly(w, Digest(w, site, Message(site.reduce(domain).value, amount, ToHex(q))), signature, amount, mint);
    }
  }

  lemma LegacyVerifiesExactly(w: Crypto, site: Site, id: Bytes32, amount: int, signature: string, mint: string)
    ensures VerifyLegacyHash(w, site, ToHex(id), amount, signature, mint) <==>
            SignedLegacy(w, site, id, amount, signature, mint)
  {
    HexIsCanonical(id);
  }

  /** The verdict is exactly the newest message the mint's key signed, and none if it signed none. */
  lemma CertifiedExactly(w: Crypto, site: Site, q: Bytes32, h: Option<Bytes32>, domain: string, amount: int,
                         signature: string, mint: string)
    ensures CertifiedOver(w, site, ToHex(q), HexOf(h), domain, amount, signature, mint) ==
            Newest(site.reduce(domain).Some? &&
                   SignedForQ(w, site, q, site.reduce(domain).value, amount, signature, mint),
                   SignedLegacy(w, site, q, amount, signature, mint),
                   h.Some? && SignedLegacy(w, site, h.value, amount, signature, mint))
  {
    HashVerifiesExactly(w, site, q, domain, amount, signature, mint);
    LegacyVerifiesExactly(w, site, q, amount, signature, mint);
    if h.Some? {
      LegacyVerifiesExactly(w, site, h.value, amount, signature, mint);
    }
  }

  /** A k1 that opens a key with the lone preimage of its leaf's hash. */
  ghost predicate OpensByPreimage(w: Crypto, k1: string, q: Bytes32, h: Bytes32) {
    var decoded := DecodeSpend(w, k1);
    && decoded.Returned? && decoded.value.Some? && decoded.value.value.scriptPath.Some?
    && var script := decoded.value.value.scriptPath.value;
      && OpensKey(w, script, q) && script.script == BearerLeaf(h)
      && |script.stack| == 1 && w.sha256(script.stack[0]) == h
  }

  lemma LockOpens(w: Crypto, k1: string, domain: Option<Bytes>, v: VerifiedSpend)
    requires VerifySpend(w, k1, domain) == Returned(Some(v)) && !v.unevaluated && LockOf(w, k1).Some?
    ensures OpensByPreimage(w, k1, v.outputKey, LockOf(w, k1).value)
  {
    var spend := DecodeSpend(w, k1).value.value;
    var script := spend.scriptPath.value;
    VerifiedScriptOpens(w, k1, domain, spend, script, v);
    BearerHashExact(script.script, LockOf(w, k1).value);
    BearerHashExact(script.script, w.sha256(script.stack[0]));
  }

  /**
   What a truthy verdict says of a k1 judged at a domain: it was evaluated and opens the key reported for it there, and
   the mint's key signed for that key, or for the hash its leaf locks to, and this amount.
   */
  ghost predicate Sound(w: Crypto, site: Site, c: Certification, k1: string, at: Option<string>, v: VerifiedSpend,
                        amount: int, signature: string, mint: string)
  {
    && VerifySpend(w, k1, BytesOf(site, at)) == Returned(Some(v)) && !v.unevaluated
    && Opens(w, k1, BytesOf(site, at), v)
    && match c
       case NotCertified => false
       case OverQ => at.Some? && SignedForQ(w, site, v.outputKey, at.value, amount, signature, mint)
       case OverLegacyQ => SignedLegacy(w, site, v.outputKey, amount, signature, mint)
       case OverHash =>
         && LockOf(w, k1).Some? && OpensByPreimage(w, k1, v.outputKey, LockOf(w, k1).value)
         && SignedLegacy(w, site, LockOf(w, k1).value, amount, signature, mint)
  }

  /**
   A truthy verdict: the k1 opens its note at this domain, was evaluated, and the mint's key signed for that very note.
   */
  lemma VerdictIsSound(w: Crypto, site: Site, k1: string, domain: string, amount: int, signature: string, mint: string,
                       c: Certification)
    returns (v: VerifiedSpend)
    requires VerifyNoteSignature(w, site, k1, domain, amount, signature, mint) == Returned(Some(c)) && c != NotCertified
    ensures Sound(w, site, c, k1, site.reduce(domain), v, amount, signature, mint)
  {
    v := VerifySpend(w, k1, BytesOf(site, site.reduce(domain))).value.value;
    VerifiedOpens(w, k1, BytesOf(site, site.reduce(domain)), v);
    CertifiedExactly(w, site, v.outputKey, LockOf(w, k1), domain, amount, signature, mint);
    if LockOf(w, k1).Some? {
      LockOpens(w, k1, BytesOf(site, site.reduce(domain)), v);
    }
  }

  /**
   Exactly what the check says of a k1 that opens a key at the domain: nothing where that is left to the mint, and
   otherwise the newest message signed for that key, or for the hash its leaf locks to.
   */
  lemma VerdictExactly(w: Crypto, site: Site, k1: string, domain: string, amount: int, signature: string, mint: string,
                       v: VerifiedSpend, lock: Option<Bytes32>)
    requires Opens(w, k1, BytesOf(site, site.reduce(domain)), v) && Locks(w, k1, lock)
    ensures VerifyNoteSignature(w, site, k1, domain, amount, signature, mint) ==
            Returned(Some(if v.unevaluated then NotCertified else
              Newest(site.reduce(domain).Some? &&
                     SignedForQ(w, site, v.outputKey, site.reduce(domain).value, amount, signature, mint),
                     SignedLegacy(w, site, v.outputKey, amount, signature, mint),
                     lock.Some? && SignedLegacy(w, site, lock.value, amount, signature, mint))))
  {
    VerifiedOpens(w, k1, BytesOf(site, site.reduce(domain)), v);
    LockTells(w, k1, BytesOf(site, site.reduce(domain)), v, lock);
    CertifiedExactly(w, site, v.outputKey, lock, domain, amount, signature, mint);
  }

  /** And of one that opens none: no more than that it is not certified. */
  lemma NothingOpened(w: Crypto, site: Site, k1: string, domain: string, amount: int, signature: string, mint: string)
    requires forall v :: !Opens(w, k1, BytesOf(site, site.reduce(domain)), v)
    ensures var verdict := VerifyNoteSignature(w, site, k1, domain, amount, signature, mint);
      verdict == Raised || verdict == Returned(Some(NotCertified))
  {
    var verified := VerifySpend(w, k1, BytesOf(site, site.reduce(domain)));
    if verified.Returned? && verified.value.Some? {
      VerifiedOpens(w, k1, BytesOf(site, site.reduce(domain)), verified.value.value);
    }
  }

  /** The hash a k1's leaf locks to, if it has a leaf and that is a bearer leaf. */
  ghost predicate Locks(w: Crypto, k1: string, lock: Option<Bytes32>) {
    if IsPreimage(k1) then lock == Some(w.sha256(SecretOf(k1)))
    else if DecodeCk1(Strip(k1)).Some? || Cw1Frame.DecodeCw1(Strip(k1)).None? then lock.None?
    else
      var script := Cw1Frame.DecodeCw1(Strip(k1)).value;
      if lock.Some? then script.script == BearerLeaf(lock.value) else !IsBearerLeaf(script)
  }

  lemma LockTells(w: Crypto, k1: string, domain: Option<Bytes>, v: VerifiedSpend, lock: Option<Bytes32>)
    requires Opens(w, k1, domain, v) && Locks(w, k1, lock)
    ensures LockOf(w, k1) == lock
  {
    DecodesByShape(w, k1);
    if IsPreimage(k1) {
      PreimageLocks(w, SecretOf(k1));
    } else if DecodeCk1(Strip(k1)).Some? {
      KeyLocksNothing(w, DecodeCk1(Strip(k1)).value);
    } else {
      ScriptLocks(w, Cw1Frame.DecodeCw1(Strip(k1)).value, lock);
    }
  }

  lemma PreimageLocks(w: Crypto, secret: Bytes32)
    requires BearerNoteOf(w.sha256, w.curve, w.sha256(secret)).Some?
    ensures LockRead(DecodePreimage(w, secret)) == Some(w.sha256(secret))
  {
    BearerHashExact(BearerLeaf(w.sha256(secret)), w.sha256(secret));
  }

  lemma KeyLocksNothing(w: Crypto, payload: Bytes)
    requires |payload| == 96 || |payload| == 65
    ensures LockRead(Returned(DecodeKeySpend(w, payload))) == None
  {
  }

  lemma ScriptLocks(w: Crypto, script: Cw1Frame.Cw1, lock: Option<Bytes32>)
    requires |script.script| <= Cw1Frame.MAX_CW1_ITEM && DecodeScriptSpend(w, script).Some?
    requires if lock.Some? then script.script == BearerLeaf(lock.value) else !IsBearerLeaf(script)
    ensures LockRead(Returned(DecodeScriptSpend(w, script))) == lock
  {
    LockExactly(script);
    if lock.Some? {
      BearerHashExact(script.script, lock.value);
    }
  }

  /**
   Exactly what the URL check is: nothing where the URL names no host, k1, certificate or amount (`NothingToCheck`), and
   otherwise the signature check at its host, of its k1 and certificate, at its amount (`AmountExactly`).
   */
  lemma UrlVerdictExactly(w: Crypto, site: Site, numeral: string -> Option<int>, url: string, pairs: seq<Pair>,
                          mint: string)
    requires Checked(site, numeral, url, pairs)
    ensures var amount := AmountOfUrl(numeral, pairs).value;
      VerifyNoteUrl(w, site, numeral, url, pairs, mint) ==
      AtAmount(amount, VerifyNoteSignature(w, site, NoteK1(pairs).value, site.reduce(url).value, amount,
                                           NoteSignature(pairs).value, mint))
  {
  }

  /** A verdict, and the amount it is for. */
  function AtAmount(amount: int, verdict: Outcome<Certification>): Outcome<Verdict> {
    match verdict
    case Raised => Raised
    case Returned(c) => Returned(Some(Verdict(Some(amount), if c.Some? then c.value else NotCertified)))
  }

  lemma NothingToCheck(w: Crypto, site: Site, numeral: string -> Option<int>, url: string, pairs: seq<Pair>,
                       mint: string)
    requires !Checked(site, numeral, url, pairs)
    ensures VerifyNoteUrl(w, site, numeral, url, pairs, mint) == Returned(Some(Verdict(None, NotCertified)))
  {
  }

  lemma AmountExactly(numeral: string -> Option<int>, pairs: seq<Pair>)
    requires Present(NoteSignature(pairs))
    ensures match DecodeCs1WithAmount(NoteSignature(pairs).value)
      case Some(certificate) => AmountOfUrl(numeral, pairs) == Some(certificate.amountMsat)
      case None => AmountOfUrl(numeral, pairs) == NoteDeclaredAmount(numeral, pairs)
  {
  }

  /** What a URL's verdict is about, when it is truthy. */
  lemma UrlVerdictReads(w: Crypto, site: Site, numeral: string -> Option<int>, url: string, pairs: seq<Pair>,
                        mint: string, verdict: Verdict)
    requires VerifyNoteUrl(w, site, numeral, url, pairs, mint) == Returned(Some(verdict))
    requires verdict.certification != NotCertified
    ensures NoteK1(pairs).Some? && NoteSignature(pairs).Some? && site.reduce(url).Some? && verdict.amount.Some?
    ensures var k1, signature, host := NoteK1(pairs).value, NoteSignature(pairs).value, site.reduce(url).value;
      && VerifyNoteSignature(w, site, k1, host, verdict.amount.value, signature, mint) ==
         Returned(Some(verdict.certification))
      && (CertifiedAmount(Some(signature)).Some? ==> verdict.amount.value == CertifiedAmount(Some(signature)).value)
  {
  }

  /**
   A truthy `verify_note_url`: its `k1` was evaluated and opens its note, and the mint's key signed for that note and
   the amount returned, which is the one the certificate states if it states any. All of this is judged at the URL's own
   host exactly when that host reads as itself: the host is reduced to a domain twice.
   */
  lemma VerifiedUrlIsSound(w: Crypto, reader: Hosts.Reader, numeral: string -> Option<int>, url: string,
                           pairs: seq<Pair>, mint: string, verdict: Verdict)
    returns (v: VerifiedSpend)
    requires Hosts.WellRead(reader)
    requires VerifyNoteUrl(w, SiteOf(reader), numeral, url, pairs, mint) == Returned(Some(verdict))
    requires verdict.certification != NotCertified
    ensures NoteK1(pairs).Some? && NoteSignature(pairs).Some? && Hosts.SpendDomainOf(reader, url).Some?
    ensures verdict.amount.Some?
    ensures var k1, signature := NoteK1(pairs).value, NoteSignature(pairs).value;
      var host := Hosts.SpendDomainOf(reader, url).value;
      var at := Hosts.SpendDomainOf(reader, host);
      && Sound(w, SiteOf(reader), verdict.certification, k1, at, v, verdict.amount.value, signature, mint)
      && (at == Some(host) <==> Hosts.ReadsAsItself(host))
      && (CertifiedAmount(Some(signature)).Some? ==> verdict.amount.value == CertifiedAmount(Some(signature)).value)
  {
    var site := SiteOf(reader);
    UrlVerdictReads(w, site, numeral, url, pairs, mint, verdict);
    var host := site.reduce(url).value;
    v := VerdictIsSound(w, site, NoteK1(pairs).value, host, verdict.amount.value, NoteSignature(pairs).value, mint,
                        verdict.certification);
    Hosts.DomainIsHostShaped(reader, url, host);
    Hosts.ReadTwiceExactly(reader, host);
  }

  // ---- the one exception ----

  /** The signature check raises exactly where reading the spend does. */
  lemma SignatureRaisesExactly(w: Crypto, site: Site, k1: string, domain: string, amount: int, signature: string,
                               mint: string)
    ensures VerifyNoteSignature(w, site, k1, domain, amount, signature, mint) == Raised <==>
            IsPreimage(k1) && TweakRefused(w.sha256, w.curve, w.sha256(SecretOf(k1)))
  {
    RaisesExactly(w, k1, BytesOf(site, site.reduce(domain)));
  }

  /** A URL that gets as far as its spend. */
  predicate Checked(site: Site, numeral: string -> Option<int>, url: string, pairs: seq<Pair>) {
    && site.reduce(url).Some? && Present(NoteK1(pairs)) && Present(NoteSignature(pairs))
    && AmountOfUrl(numeral, pairs).Some?
  }

  /** And the URL check exactly where, besides, the URL names a host, a k1, a certificate and an amount. */
  lemma UrlRaisesExactly(w: Crypto, site: Site, numeral: string -> Option<int>, url: string, pairs: seq<Pair>,
                         mint: string)
    ensures VerifyNoteUrl(w, site, numeral, url, pairs, mint) == Raised <==>
            && Checked(site, numeral, url, pairs)
            && IsPreimage(NoteK1(pairs).value)
            && TweakRefused(w.sha256, w.curve, w.sha256(SecretOf(NoteK1(pairs).value)))
  {
    if Checked(site, numeral, url, pairs) {
      SignatureRaisesExactly(w, site, NoteK1(pairs).value, site.reduce(url).value, AmountOfUrl(numeral, pairs).value,
                             NoteSignature(pairs).value, mint);
    }
  }

  /** So there is a hash under which every checked URL of a bearer note raises. */
  lemma EveryBearerUrlRaises(w: Crypto, site: Site, numeral: string -> Option<int>, url: string, pairs: seq<Pair>,
                             mint: string)
    requires Checked(site, numeral, url, pairs) && IsPreimage(NoteK1(pairs).value)
    ensures VerifyNoteUrl(AllOnes(w), site, numeral, url, pairs, mint) == Raised
  {
    EveryPreimageRaises(w, NoteK1(pairs).value, None);
    RaisesExactly(AllOnes(w), NoteK1(pairs).value, None);
    UrlRaisesExactly(AllOnes(w), site, numeral, url, pairs, mint);
  }

  /** A certificate that states one amount certifies no other, under any message. */
  lemma AmountCannotBeMoved(w: Crypto, site: Site, k1: string, domain: string, amount: int, signature: string,
                            mint: string)
    requires DecodeCs1WithAmount(Strip(signature)).Some?
    requires DecodeCs1WithAmount(Strip(signature)).value.amountMsat != amount
    requires VerifyNoteSignature(w, site, k1, domain, amount, signature, mint).Returned?
    ensures VerifyNoteSignature(w, site, k1, domain, amount, signature, mint) == Returned(Some(NotCertified))
  {
    assert CertificateBytes(signature, amount, true) == None;
    match VerifySpend(w, k1, BytesOf(site, site.reduce(domain)))
    case Returned(Some(v)) => CertifiedExactly(w, site, v.outputKey, LockOf(w, k1), domain, amount, signature, mint);
    case _ =>
  }

  // ---- a fresh note verifies ----

  /** A mint's recoverable signature over a note, with its recovery id last. */
  ghost predicate IssuedFor(w: Crypto, site: Site, q: Bytes32, domain: string, amount: nat, raw: Bytes, mint: string) {
    |raw| == 65 && raw[64] <= 3 && RecoversUnder(w, Digest(w, site, Message(domain, amount, ToHex(q))), raw, mint)
  }

  /** Wherever a k1 opens its note and the mint's key signed for it there, the check says so. */
  lemma SignedForQVerifies(w: Crypto, site: Site, k1: string, domain: string, amount: int, signature: string,
                           mint: string, v: VerifiedSpend)
    requires VerifySpend(w, k1, BytesOf(site, site.reduce(domain))) == Returned(Some(v)) && !v.unevaluated
    requires site.reduce(domain).Some?
    requires SignedForQ(w, site, v.outputKey, site.reduce(domain).value, amount, signature, mint)
    ensures VerifyNoteSignature(w, site, k1, domain, amount, signature, mint) == Returned(Some(OverQ))
  {
    CertifiedExactly(w, site, v.outputKey, LockOf(w, k1), domain, amount, signature, mint);
  }

  lemma IssuedIsSigned(w: Crypto, site: Site, q: Bytes32, domain: string, amount: nat, raw: Bytes, mint: string,
                       c: string)
    requires IssuedFor(w, site, q, domain, amount, raw, mint)
    requires Strip(c) == c && DecodeCs1WithAmount(c) == Some(Cs1(amount, raw))
    ensures SignedForQ(w, site, q, domain, amount, c, mint)
  {
  }

  /** Wherever a k1 opens a note whose certificate was issued there, the signature check says so. */
  lemma OpeningVerifies(w: Crypto, site: Site, k1: string, v: VerifiedSpend, host: string, domain: string, amount: nat,
                        raw: Bytes, mint: string, c: string)
    requires site.reduce(host) == Some(domain) && Opens(w, k1, Some(site.utf8(domain)), v) && !v.unevaluated
    requires IssuedFor(w, site, v.outputKey, domain, amount, raw, mint)
    requires Strip(c) == c && DecodeCs1WithAmount(c) == Some(Cs1(amount, raw))
    ensures VerifyNoteSignature(w, site, k1, host, amount, c, mint) == Returned(Some(OverQ))
  {
    VerifiedOpens(w, k1, BytesOf(site, site.reduce(host)), v);
    IssuedIsSigned(w, site, v.outputKey, domain, amount, raw, mint, c);
    SignedForQVerifies(w, site, k1, host, amount, c, mint, v);
  }

  /** The URL check is the signature check on what the URL reads as. */
  lemma UrlVerifiesAsRead(w: Crypto, site: Site, numeral: string -> Option<int>, url: string, pairs: seq<Pair>,
                          mint: string, k1: string, c: string, amount: nat, domain: string,
                          certification: Certification)
    requires NoteK1(pairs) == Some(k1) && k1 != "" && NoteSignature(pairs) == Some(c) && c != ""
    requires site.reduce(url) == Some(domain) && CertifiedAmount(Some(c)) == Some(amount)
    requires VerifyNoteSignature(w, site, k1, domain, amount, c, mint) == Returned(Some(certification))
    ensures VerifyNoteUrl(w, site, numeral, url, pairs, mint) == Returned(Some(Verdict(Some(amount), certification)))
  {
  }

  lemma IssuedReads(amount: nat, raw: Bytes, c: string)
    requires |raw| == 65 && raw[64] <= 3 && EncodeCs1WithAmount(amount, raw) == Ok(c)
    ensures Strip(c) == c && c != "" && DecodeCs1WithAmount(c) == Some(Cs1(amount, raw))
  {
    var hrp := "cs" + EncodeSuffix(amount);
    Cs1PrefixIsProper(amount);
    EncodingIsBech32(hrp, raw, 65, c);
    Bech32.EncodingIsTrimmed(hrp, raw, Checksum.BECH32M);
    Cs1RoundTrip(amount, raw);
  }

  lemma CertifiedBy(c: string, amount: nat, raw: Bytes)
    requires c != "" && DecodeCs1WithAmount(c) == Some(Cs1(amount, raw))
    ensures CertifiedAmount(Some(c)) == Some(amount)
  {
  }

  /** A URL that reads as an opening k1 and the certificate of its note checks out, wherever its host is judged. */
  lemma HeldNoteVerifies(w: Crypto, site: Site, numeral: string -> Option<int>, url: string, pairs: seq<Pair>,
                         k1: string, v: VerifiedSpend, host: string, domain: string, amount: nat, raw: Bytes,
                         mint: string, c: string)
    requires NoteK1(pairs) == Some(k1) && k1 != "" && NoteSignature(pairs) == Some(c)
    requires site.reduce(url) == Some(host) && site.reduce(host) == Some(domain)
    requires Opens(w, k1, Some(site.utf8(domain)), v) && !v.unevaluated
    requires IssuedFor(w, site, v.outputKey, domain, amount, raw, mint)
    requires Strip(c) == c && c != "" && DecodeCs1WithAmount(c) == Some(Cs1(amount, raw))
    ensures VerifyNoteUrl(w, site, numeral, url, pairs, mint) == Returned(Some(Verdict(Some(amount), OverQ)))
  {
    OpeningVerifies(w, site, k1, v, host, domain, amount, raw, mint, c);
    CertifiedBy(c, amount, raw);
    UrlVerifiesAsRead(w, site, numeral, url, pairs, mint, k1, c, amount, host, OverQ);
  }

  lemma FreshUrlReads(numeral: string -> Option<int>, pairs: seq<Pair>, k1: string, claimed: int, c: string)
    requires ReadsNumerals(numeral) && c != ""
    ensures var note := Rewritten(RewriteOf(Some(Lower(k1)), claimed, Some(c)), pairs);
      NoteK1(note) == Some(Lower(k1)) && NoteSignature(note) == Some(c)
  {
    NoteReadsBack(numeral, pairs, k1, claimed, Some(c));
  }

  /** The query of a note URL with a k1 and a certificate written in. */
  function Holding(pairs: seq<Pair>, k1: string, claimed: int, c: string): seq<Pair> {
    Rewritten(RewriteOf(Some(Lower(k1)), claimed, Some(c)), pairs)
  }

  lemma IssuedNoteVerifies(w: Crypto, site: Site, numeral: string -> Option<int>, url: string, pairs: seq<Pair>,
                           k1: string, v: VerifiedSpend, host: string, domain: string, amount: nat, claimed: int,
                           raw: Bytes, mint: string, c: string)
    requires Lower(k1) == k1 && k1 != "" && ReadsNumerals(numeral)
    requires site.reduce(url) == Some(host) && site.reduce(host) == Some(domain)
    requires Opens(w, k1, Some(site.utf8(domain)), v) && !v.unevaluated
    requires IssuedFor(w, site, v.outputKey, domain, amount, raw, mint) && EncodeCs1WithAmount(amount, raw) == Ok(c)
    ensures VerifyNoteUrl(w, site, numeral, url, Holding(pairs, k1, claimed, c), mint) ==
            Returned(Some(Verdict(Some(amount), OverQ)))
  {
    IssuedReads(amount, raw, c);
    FreshUrlReads(numeral, pairs, k1, claimed, c);
    HeldNoteVerifies(w, site, numeral, url, Holding(pairs, k1, claimed, c), k1, v, host, domain, amount, raw, mint, c);
  }

  /**
   What a mint issues, a recipient can check: write a k1 that opens a note there, of any shape that is evaluated, and
   the certificate issued for the note into any note URL at the mint, and `verify_note_url` finds that amount, certified
   over `Q`, provided the host reads as itself.
   */
  lemma OpenedNoteVerifies(w: Crypto, reader: Hosts.Reader, numeral: string -> Option<int>, url: string,
                           pairs: seq<Pair>, k1: string, v: VerifiedSpend, host: string, amount: nat, claimed: int,
                           raw: Bytes, mint: string, c: string)
    requires Hosts.WellRead(reader) && Hosts.SpendDomainOf(reader, url) == Some(host) && Hosts.ReadsAsItself(host)
    requires Lower(k1) == k1 && k1 != "" && ReadsNumerals(numeral)
    requires Opens(w, k1, Some(reader.utf8(host)), v) && !v.unevaluated
    requires IssuedFor(w, SiteOf(reader), v.outputKey, host, amount, raw, mint)
    requires EncodeCs1WithAmount(amount, raw) == Ok(c)
    ensures VerifyNoteUrl(w, SiteOf(reader), numeral, url, Holding(pairs, k1, claimed, c), mint) ==
            Returned(Some(Verdict(Some(amount), OverQ)))
  {
    Hosts.DomainIsHostShaped(reader, url, host);
    Hosts.ReadTwiceExactly(reader, host);
    IssuedNoteVerifies(w, SiteOf(reader), numeral, url, pairs, k1, v, host, host, amount, claimed, raw, mint, c);
  }

  lemma FreshSecretOpens(w: Crypto, secret: Bytes32, note: BearerNote, domain: Option<Bytes>)
    requires BearerNoteOf(w.sha256, w.curve, w.sha256(secret)) == Some(note)
    ensures Lower(ToHex(secret)) == ToHex(secret) != ""
    ensures Opens(w, ToHex(secret), domain, VerifiedSpend(note.outputKey, false, false))
  {
    HexIsCanonical(secret);
    SecretOpens(w, ToHex(secret), note, domain);
  }

  lemma SecretOpens(w: Crypto, k1: string, note: BearerNote, domain: Option<Bytes>)
    requires IsPreimage(k1) && BearerNoteOf(w.sha256, w.curve, w.sha256(SecretOf(k1))) == Some(note)
    ensures Opens(w, k1, domain, VerifiedSpend(note.outputKey, false, false))
  {
  }

  /** So a fresh secret and the certificate issued for its note verify, a bearer secret at any mint that issued one. */
  lemma FreshNoteVerifies(w: Crypto, reader: Hosts.Reader, numeral: string -> Option<int>, url: string,
                          pairs: seq<Pair>, secret: Bytes32, note: BearerNote, host: string, amount: nat,
                          claimed: int, raw: Bytes, mint: string, c: string)
    requires Hosts.WellRead(reader) && Hosts.SpendDomainOf(reader, url) == Some(host) && Hosts.ReadsAsItself(host)
    requires BearerNoteOf(w.sha256, w.curve, w.sha256(secret)) == Some(note) && ReadsNumerals(numeral)
    requires IssuedFor(w, SiteOf(reader), note.outputKey, host, amount, raw, mint)
    requires EncodeCs1WithAmount(amount, raw) == Ok(c)
    ensures VerifyNoteUrl(w, SiteOf(reader), numeral, url, Holding(pairs, ToHex(secret), claimed, c), mint) ==
            Returned(Some(Verdict(Some(amount), OverQ)))
  {
    FreshSecretOpens(w, secret, note, Some(reader.utf8(host)));
    OpenedNoteVerifies(w, reader, numeral, url, pairs, ToHex(secret), VerifiedSpend(note.outputKey, false, false), host,
                       amount, claimed, raw, mint, c);
  }

  /** And so does a key and its signature for the URL's own host. */
  lemma FreshCk1Verifies(w: Crypto, reader: Hosts.Reader, numeral: string -> Option<int>, url: string,
                         pairs: seq<Pair>, q: Bytes32, signed: Bytes64, k1: string, host: string, amount: nat,
                         claimed: int, raw: Bytes, mint: string, c: string)
    requires Hosts.WellRead(reader) && Hosts.SpendDomainOf(reader, url) == Some(host) && Hosts.ReadsAsItself(host)
    requires LiftX(w.curve, q).Some? && EncodeCk1(q + signed) == Ok(k1) && ReadsNumerals(numeral)
    requires SignsFor(w, q, signed, Some(reader.utf8(host)))
    requires IssuedFor(w, SiteOf(reader), q, host, amount, raw, mint) && EncodeCs1WithAmount(amount, raw) == Ok(c)
    ensures VerifyNoteUrl(w, SiteOf(reader), numeral, url, Holding(pairs, k1, claimed, c), mint) ==
            Returned(Some(Verdict(Some(amount), OverQ)))
  {
    var v := VerifiedSpend(q, false, false);
    MadeCk1Verifies(w, q, signed, reader.utf8(host), k1);
    VerifiedOpens(w, k1, Some(reader.utf8(host)), v);
    OpenedNoteVerifies(w, reader, numeral, url, pairs, k1, v, host, amount, claimed, raw, mint, c);
  }

  /** Where the host does not, another domain's note passes: one issued for `2001` does at `https://[2001:db8::1]/`. */
  lemma Ipv6UrlTakesAnothersNote(w: Crypto, reader: Hosts.Reader, numeral: string -> Option<int>, url: string,
                                 pairs: seq<Pair>, secret: Bytes32, note: BearerNote, amount: nat, claimed: int,
                                 raw: Bytes, mint: string, c: string)
    requires Hosts.SpendDomainOf(reader, url) == Some("2001:db8::1")
    requires BearerNoteOf(w.sha256, w.curve, w.sha256(secret)) == Some(note) && ReadsNumerals(numeral)
    requires IssuedFor(w, SiteOf(reader), note.outputKey, "2001", amount, raw, mint)
    requires EncodeCs1WithAmount(amount, raw) == Ok(c)
    ensures VerifyNoteUrl(w, SiteOf(reader), numeral, url, Holding(pairs, ToHex(secret), claimed, c), mint) ==
            Returned(Some(Verdict(Some(amount), OverQ)))
  {
    Hosts.Ipv6IsMisread(reader);
    FreshSecretOpens(w, secret, note, Some(reader.utf8("2001")));
    IssuedNoteVerifies(w, SiteOf(reader), numeral, url, pairs, ToHex(secret),
                       VerifiedSpend(note.outputKey, false, false),
                       "2001:db8::1", "2001", amount, claimed, raw, mint, c);
  }

  /** And at a host that starts with `lnurl1` no current certificate passes at all, its own mint's included. */
  lemma LnurlHostUrlRefusesItsOwn(w: Crypto, reader: Hosts.Reader, numeral: string -> Option<int>, url: string,
                                  pairs: seq<Pair>, mint: string, verdict: Verdict)
    requires Hosts.SpendDomainOf(reader, url) == Some("lnurl1.example")
    requires VerifyNoteUrl(w, SiteOf(reader), numeral, url, pairs, mint) == Returned(Some(verdict))
    ensures verdict.certification != OverQ
  {
    Hosts.LnurlHostIsRefused(reader);
    if verdict.certification != NotCertified {
      UrlVerdictReads(w, SiteOf(reader), numeral, url, pairs, mint, verdict);
      var v := VerdictIsSound(w, SiteOf(reader), NoteK1(pairs).value, "lnurl1.example", verdict.amount.value,
                              NoteSignature(pairs).value, mint, verdict.certification);
    }
  }
}
