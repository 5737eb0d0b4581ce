/** The proof by which a share's own key registers, updates or unregisters an address (LUD-26). */
module AddressProofs {
  import opened Prelude
  import opened Text
  import opened Primitives
  import opened Certificates
  import opened Spends
  import Bech32
  import Checksum
  import Hosts

  const ACTIONS: seq<string> := ["register", "update", "unregister"]

  /** What a proof is asked for: the domain and the share in any spelling, the username in any case. */
  datatype Asked = Asked(action: string, domain: string, username: string, cx1: Option<string>)

  /** What it then claims: the reduced domain, the username in lower case, and the share's chain code and point. */
  datatype Claim = Claim(action: string, domain: string, username: string, share: Option<Bytes>)

  datatype ProofError = NoDomain | NoUsername | NoSuchAction | NotACx1 | UnregisterBindsNoCx1 | Cx1Missing

  /** `decode_cx1`: a chain code and a compressed point. */
  function DecodeCx1(isPoint: Bytes -> bool, value: string): (share: Option<Bytes>)
    ensures share.Some? ==> |share.value| == 65
  {
    ShareOf(isPoint, DecodeFixed("cx", value, 65))
  }

  function ShareOf(isPoint: Bytes -> bool, payload: Option<Bytes>): (share: Option<Bytes>)
    requires payload.Some? ==> |payload.value| == 65
    ensures share.Some? ==> |share.value| == 65
  {
    if payload.Some? && payload.value[32] in {2, 3} && isPoint(payload.value[32..]) then payload else None
  }

  /** The checks of `address_proof_message`. */
  function ClaimOf(reader: Hosts.Reader, isPoint: Bytes -> bool, asked: Asked): (r: Result<Claim, ProofError>)
    ensures r.Ok? ==> WellMade(r.value)
  {
    ClaimFrom(asked.action, Hosts.SpendDomainOf(reader, asked.domain), Lower(Strip(asked.username)), asked.cx1.Some?,
              if asked.cx1.Some? then DecodeCx1(isPoint, asked.cx1.value) else None)
  }

  /** In their order, given what the domain, the username and the share are read as. */
  function ClaimFrom(action: string, domain: Option<string>, username: string, given: bool, share: Option<Bytes>):
    (r: Result<Claim, ProofError>)
    requires share.Some? ==> |share.value| == 65
    ensures r.Ok? ==> WellMade(r.value)
  {
    if domain.None? then Err(NoDomain)
    else if username == "" then Err(NoUsername)
    else if action !in ACTIONS then Err(NoSuchAction)
    else if given && share.None? then Err(NotACx1)
    else if action == "unregister" then
      if given then Err(UnregisterBindsNoCx1) else Ok(Claim(action, domain.value, username, None))
    else if !given || share.None? then Err(Cx1Missing)
    else Ok(Claim(action, domain.value, username, share))
  }

  predicate WellMade(c: Claim) {
    && c.action in ACTIONS && (c.share.None? <==> c.action == "unregister")
    && (c.share.Some? ==> |c.share.value| == 65)
  }

  /** `encode_cx1` of a share. */
  function Cx1Text(share: Bytes): string {
    Bech32.EncodeString("cx", share, Checksum.BECH32M)
  }

  /** The domain and the username, as they stand side by side in the message. */
  function Named(c: Claim): string {
    c.domain + ":" + c.username
  }

  function Bound(c: Claim): string {
    match c.share
    case None => Named(c)
    case Some(share) => Named(c) + ":" + Cx1Text(share)
  }

  function ClaimText(c: Claim): string {
    "LNURLcash:" + (c.action + ":" + Bound(c))
  }

  /** The messages as LUD-26 writes them. */
  lemma UnregisterReads(domain: string, username: string)
    ensures ClaimText(Claim("unregister", domain, username, None)) ==
            "LNURLcash:unregister:" + domain + ":" + username
  {
    MessageReads("unregister", "LNURLcash:unregister:", domain + ":" + username);
    Pieces("LNURLcash:unregister:", domain, ":", username);
  }

  /** One for `register` and one for `update`, each with its share. */
  lemma BindingReads(action: string, start: string, domain: string, username: string, share: Bytes)
    requires start == "LNURLcash:" + action + ":"
    ensures ClaimText(Claim(action, domain, username, Some(share))) ==
            start + domain + ":" + username + ":" + Cx1Text(share)
  {
    MessageReads(action, start, domain + ":" + username + ":" + Cx1Text(share));
    Pieces(start, domain, ":", username);
    Pieces(start, domain + ":" + username, ":", Cx1Text(share));
  }

  lemma MessageReads(action: string, start: string, bound: string)
    requires start == "LNURLcash:" + action + ":"
    ensures "LNURLcash:" + (action + ":" + bound) == start + bound
  {
  }

  lemma Pieces(a: string, b: string, c: string, d: string)
    ensures a + (b + c + d) == a + b + c + d
  {
  }

  /** `address_proof_message`. */
  function AddressProofMessage(reader: Hosts.Reader, isPoint: Bytes -> bool, asked: Asked): Result<string, ProofError> {
    match ClaimOf(reader, isPoint, asked)
    case Err(e) => Err(e)
    case Ok(c) => Ok(ClaimText(c))
  }

  /** `address_proof_digest`. */
  function ProofDigest(w: Crypto, reader: Hosts.Reader, c: Claim): Bytes32 {
    w.sha256(reader.utf8(ClaimText(c)))
  }

  /** The x coordinate a proof is checked against. */
  function SignerOf(share: Option<Bytes>): Option<Bytes32>
    requires share.Some? ==> |share.value| == 65
  {
    match share
    case None => None
    case Some(payload) => Some(payload[33..])
  }

  /** `verify_address_proof`. */
  predicate VerifyAddressProof(w: Crypto, reader: Hosts.Reader, isPoint: Bytes -> bool, signerCx1: string,
                               signature: Bytes, asked: Asked)
  {
    Checks(w, reader, DecodeCx1(isPoint, signerCx1), signature, ClaimOf(reader, isPoint, asked))
  }

  predicate Checks(w: Crypto, reader: Hosts.Reader, share: Option<Bytes>, signature: Bytes,
                   claim: Result<Claim, ProofError>)
    requires share.Some? ==> |share.value| == 65
  {
    claim.Ok? && Signs(w, reader, SignerOf(share), signature, claim.value)
  }

  predicate Signs(w: Crypto, reader: Hosts.Reader, signer: Option<Bytes32>, signature: Bytes, c: Claim) {
    signer.Some? && w.schnorr(signer.value, signature, ProofDigest(w, reader, c))
  }

  // ---- what is accepted ----

  /** What reads as a share: 65 bytes under `cx`, the last 33 a compressed point. */
  lemma Cx1Exactly(isPoint: Bytes -> bool, hrp: string, value: string, share: Bytes)
    requires hrp == "cx"
    ensures DecodeCx1(isPoint, value) == Some(share) <==>
            && Bech32.Decode(Strip(value), Bech32.LIMIT, Checksum.BECH32M) == Some(Bech32.Decoded(hrp, share))
            && IsShare(isPoint, share)
  {
    FixedExactly(hrp, value, 65, share);
    ShareExactly(isPoint, DecodeFixed(hrp, value, 65), share);
  }

  predicate IsShare(isPoint: Bytes -> bool, share: Bytes) {
    |share| == 65 && (share[32] == 2 || share[32] == 3) && isPoint(share[32..65])
  }

  lemma ShareExactly(isPoint: Bytes -> bool, payload: Option<Bytes>, share: Bytes)
    requires payload.Some? ==> |payload.value| == 65
    ensures ShareOf(isPoint, payload) == Some(share) <==> payload == Some(share) && IsShare(isPoint, share)
  {
    if |share| == 65 {
      assert share[32..65] == share[32..];
    }
  }

  /**
   A request is accepted exactly where it names a domain, a user and an action, and binds a share unless it removes one.
   */
  lemma AcceptedExactly(action: string, domain: Option<string>, username: string, given: bool, share: Option<Bytes>)
    requires share.Some? ==> |share.value| == 65 && given
    ensures ClaimFrom(action, domain, username, given, share).Ok? <==>
            && domain.Some? && username != ""
            && if action == "unregister" then !given else (action == "register" || action == "update") && share.Some?
    ensures ClaimFrom(action, domain, username, given, share).Ok? ==>
              ClaimFrom(action, domain, username, given, share).value == Claim(action, domain.value, username, share)
  {
    ActionsAre(action);
  }

  lemma ActionsAre(action: string)
    ensures action in ACTIONS <==> action == "register" || action == "update" || action == "unregister"
  {
    assert ACTIONS[0] == "register" && ACTIONS[1] == "update" && ACTIONS[2] == "unregister";
  }

  /** And a proof of it verifies exactly where it is the signing share's own signature over the hash of the message. */
  lemma ProofVerifiesExactly(w: Crypto, reader: Hosts.Reader, isPoint: Bytes -> bool, signer: Bytes, key: Bytes32,
                             text: string, signature: Bytes, asked: Asked, claim: Claim)
    requires |signer| == 65 && IsShare(isPoint, signer) && signer[33..] == key
    requires text == Cx1Text(signer) && ClaimOf(reader, isPoint, asked) == Ok(claim)
    ensures VerifyAddressProof(w, reader, isPoint, text, signature, asked) <==>
            w.schnorr(key, signature, w.sha256(reader.utf8(ClaimText(claim))))
  {
    SignerReads(isPoint, "cx", signer, text);
    ChecksExactly(w, reader, signer, key, signature, claim);
  }

  lemma ChecksExactly(w: Crypto, reader: Hosts.Reader, signer: Bytes, key: Bytes32, signature: Bytes, claim: Claim)
    requires |signer| == 65 && signer[33..] == key
    ensures Checks(w, reader, Some(signer), signature, Ok(claim)) <==>
            w.schnorr(key, signature, w.sha256(reader.utf8(ClaimText(claim))))
  {
  }

  lemma SignerReads(isPoint: Bytes -> bool, hrp: string, signer: Bytes, text: string)
    requires IsShare(isPoint, signer) && hrp == "cx" && text == Cx1Text(signer)
    ensures DecodeCx1(isPoint, text) == Some(signer)
  {
    Cx1ReadsBack(signer);
    Cx1IsTrimmed(signer);
    Cx1Exactly(isPoint, hrp, text, signer);
  }

  lemma Cx1IsTrimmed(share: Bytes)
    requires |share| == 65
    ensures Strip(Cx1Text(share)) == Cx1Text(share)
  {
    IsProper("cx");
    Bech32.EncodingIsTrimmed("cx", share, Checksum.BECH32M);
  }

  // ---- the canonical spelling of a share ----

  /** `encode_cx1` never refuses a share: its text is always within the limit. */
  lemma Cx1AlwaysEncodes(share: Bytes)
    requires |share| == 65
    ensures EncodeFixed("cx", share, 65) == Ok(Cx1Text(share))
  {
    GroupsLength(share);
    Bech32.EncodesWithin("cx", share, Bech32.LIMIT, Checksum.BECH32M);
  }

  lemma Cx1TextInjective(a: Bytes, b: Bytes)
    requires |a| == |b| == 65 && Cx1Text(a) == Cx1Text(b)
    ensures a == b
  {
    Cx1ReadsBack(a);
    Cx1ReadsBack(b);
  }

  lemma Cx1ReadsBack(share: Bytes)
    requires |share| == 65
    ensures Bech32.Decode(Cx1Text(share), Bech32.LIMIT, Checksum.BECH32M) == Some(Bech32.Decoded("cx", share))
  {
    Cx1AlwaysEncodes(share);
    EncodingIsBech32("cx", share, 65, Cx1Text(share));
    ReadsBack("cx", share, Cx1Text(share));
  }

  lemma ReadsBack(hrp: string, share: Bytes, s: string)
    requires hrp == "cx" && Bech32.Encode(hrp, share, Bech32.LIMIT, Checksum.BECH32M) == Ok(s)
    ensures Bech32.Decode(s, Bech32.LIMIT, Checksum.BECH32M) == Some(Bech32.Decoded(hrp, share))
  {
    IsProper(hrp);
    Bech32.RoundTrip(hrp, share, Bech32.LIMIT, Checksum.BECH32M);
  }

  lemma IsProper(hrp: string)
    requires hrp == "cx"
    ensures Bech32.ProperHrp(hrp)
  {
  }

  lemma Cx1HasNoColon(share: Bytes)
    ensures ':' !in Cx1Text(share)
  {
    var data := Bech32.DataPart("cx", share, Checksum.BECH32M);
    CharsHaveNoColon(data);
  }

  lemma CharsHaveNoColon(data: seq<Bech32.Symbol>)
    ensures ':' !in Bech32.Chars(data)
  {
    var s := Bech32.Chars(data);
    forall i | 0 <= i < |s| ensures s[i] != ':' {
      Bech32.SymbolOfChar(data[i]);
      assert Bech32.SymbolOf(':').None?;
    }
  }

  // ---- what a message binds ----

  /**
   Exactly what a message tells: the action and the share always, and the domain and the username as one text with a
   colon somewhere in it.
   */
  lemma MessageTellsExactly(a: Claim, b: Claim)
    requires WellMade(a) && WellMade(b)
    ensures ClaimText(a) == ClaimText(b) <==> a.action == b.action && a.share == b.share && Named(a) == Named(b)
  {
    if ClaimText(a) == ClaimText(b) {
      SplitsAfter("LNURLcash:", a.action + ":" + Bound(a), b.action + ":" + Bound(b));
      ActionHasNoColon(a.action);
      ActionHasNoColon(b.action);
      FirstColonSplits(a.action, Bound(a), b.action, Bound(b));
      BoundTells(a, b);
    }
  }

  lemma ActionHasNoColon(action: string)
    requires action in ACTIONS
    ensures ':' !in action
  {
  }

  lemma BoundTells(a: Claim, b: Claim)
    requires WellMade(a) && WellMade(b) && a.action == b.action && Bound(a) == Bound(b)
    ensures a.share == b.share && Named(a) == Named(b)
  {
    if a.share.Some? {
      Cx1HasNoColon(a.share.value);
      Cx1HasNoColon(b.share.value);
      LastColonSplits(Named(a), Cx1Text(a.share.value), Named(b), Cx1Text(b.share.value));
      Cx1TextInjective(a.share.value, b.share.value);
    }
  }

  /** Where neither domain has a colon in it, the message names one domain and one username. */
  lemma NamesOneDomain(a: Claim, b: Claim)
    requires WellMade(a) && WellMade(b) && ':' !in a.domain && ':' !in b.domain
    ensures ClaimText(a) == ClaimText(b) <==> a == b
  {
    MessageTellsExactly(a, b);
    if Named(a) == Named(b) {
      FirstColonSplits(a.domain, a.username, b.domain, b.username);
    }
  }

  /** A domain and a username that are not the claim's, in the same message. */
  ghost predicate ReadsAlsoAs(c: Claim, domain: string, username: string) {
    && domain != "" && username != "" && domain != c.domain
    && ClaimText(c.(domain := domain, username := username)) == ClaimText(c)
  }

  /** A colon that could as well be the one between the domain and the username. */
  predicate SplitsElsewhere(c: Claim, at: nat) {
    0 < at < |Named(c)| - 1 && Named(c)[at] == ':' && at != |c.domain|
  }

  /** So a claim's message is another domain's too exactly when its domain or its username has such a colon in it. */
  lemma AnotherReadingExactly(c: Claim)
    requires WellMade(c)
    ensures (exists domain, username :: ReadsAlsoAs(c, domain, username)) <==> exists at :: SplitsElsewhere(c, at)
  {
    CutMeansReading(c);
    ReadingMeansCut(c);
  }

  lemma CutMeansReading(c: Claim)
    requires WellMade(c)
    ensures (exists at :: SplitsElsewhere(c, at)) ==> exists domain, username :: ReadsAlsoAs(c, domain, username)
  {
    if at :| SplitsElsewhere(c, at) {
      CutReads(c, at);
    }
  }

  lemma ReadingMeansCut(c: Claim)
    requires WellMade(c)
    ensures (exists domain, username :: ReadsAlsoAs(c, domain, username)) ==> exists at :: SplitsElsewhere(c, at)
  {
    if domain, username :| ReadsAlsoAs(c, domain, username) {
      ReadingCuts(c, domain, username);
    }
  }

  lemma CutReads(c: Claim, at: nat)
    requires WellMade(c) && SplitsElsewhere(c, at)
    ensures ReadsAlsoAs(c, Named(c)[..at], Named(c)[at + 1..])
  {
    var other := c.(domain := Named(c)[..at], username := Named(c)[at + 1..]);
    assert Named(other) == Named(c);
    MessageTellsExactly(other, c);
  }

  lemma ReadingCuts(c: Claim, domain: string, username: string)
    requires WellMade(c) && ReadsAlsoAs(c, domain, username)
    ensures SplitsElsewhere(c, |domain|)
  {
    MessageTellsExactly(c.(domain := domain, username := username), c);
    CutAt(c, domain, username);
  }

  lemma CutAt(c: Claim, domain: string, username: string)
    requires domain != "" && username != "" && domain != c.domain && domain + ":" + username == Named(c)
    ensures SplitsElsewhere(c, |domain|)
  {
    var named := domain + ":" + username;
    assert named[..|domain|] == domain && named[|domain|] == ':' && Named(c)[..|c.domain|] == c.domain;
  }

  /** The documented promise fails: one proof unregisters `bob` at `2001:db8::1` and `db8::1:bob` at `2001`. */
  lemma Ipv6ProofServesTwice(w: Crypto, reader: Hosts.Reader, isPoint: Bytes -> bool, signerCx1: string,
                             signature: Bytes, here: Asked, there: Asked)
    requires here == Asked("unregister", here.domain, "bob", None)
    requires Hosts.SpendDomainOf(reader, here.domain) == Some("2001:db8::1")
    requires there == Asked("unregister", "2001", "db8::1:bob", None)
    ensures VerifyAddressProof(w, reader, isPoint, signerCx1, signature, here) <==>
            VerifyAddressProof(w, reader, isPoint, signerCx1, signature, there)
  {
    Hosts.DigitsAreAHost(reader);
    IsUsername("bob");
    IsUsername("db8::1:bob");
    SameNames("2001:db8::1", "bob", "2001", "db8::1:bob");
    ServesTwice(w, reader, isPoint, signerCx1, signature, here, "2001:db8::1", there, "2001");
  }

  lemma SameNames(domain: string, name: string, elsewhere: string, other: string)
    requires domain == "2001:db8::1" && name == "bob" && elsewhere == "2001" && other == "db8::1:bob"
    ensures domain + ":" + name == elsewhere + ":" + other
  {
    assert domain + ":" + name == "2001:db8::1:bob" == elsewhere + ":" + other;
  }

  lemma IsUsername(name: string)
    requires name == "bob" || name == "db8::1:bob"
    ensures Lower(Strip(name)) == name != ""
  {
    StripTrimmed(name);
  }

  lemma ServesTwice(w: Crypto, reader: Hosts.Reader, isPoint: Bytes -> bool, signerCx1: string, signature: Bytes,
                    here: Asked, domain: string, there: Asked, elsewhere: string)
    requires here.action == there.action == "unregister" && here.cx1.None? && there.cx1.None?
    requires Hosts.SpendDomainOf(reader, here.domain) == Some(domain)
    requires Hosts.SpendDomainOf(reader, there.domain) == Some(elsewhere)
    requires Lower(Strip(here.username)) == here.username != ""
    requires Lower(Strip(there.username)) == there.username != ""
    requires domain + ":" + here.username == elsewhere + ":" + there.username
    ensures VerifyAddressProof(w, reader, isPoint, signerCx1, signature, here) <==>
            VerifyAddressProof(w, reader, isPoint, signerCx1, signature, there)
  {
    UnregisterClaims(reader, isPoint, here, domain);
    UnregisterClaims(reader, isPoint, there, elsewhere);
    var a, b := Claim("unregister", domain, here.username, None), Claim("unregister", elsewhere, there.username, None);
    SameText(a, b);
    SignsAlike(w, reader, SignerOf(DecodeCx1(isPoint, signerCx1)), signature, a, b);
  }

  lemma SameText(a: Claim, b: Claim)
    requires a.action == b.action && a.share == b.share && Named(a) == Named(b)
    ensures ClaimText(a) == ClaimText(b)
  {
  }

  lemma SignsAlike(w: Crypto, reader: Hosts.Reader, signer: Option<Bytes32>, signature: Bytes, a: Claim, b: Claim)
    requires ClaimText(a) == ClaimText(b)
    ensures Signs(w, reader, signer, signature, a) <==> Signs(w, reader, signer, signature, b)
  {
  }

  lemma UnregisterClaims(reader: Hosts.Reader, isPoint: Bytes -> bool, asked: Asked, domain: string)
    requires asked.action == "unregister" && asked.cx1.None?
    requires Hosts.SpendDomainOf(reader, asked.domain) == Some(domain)
    requires Lower(Strip(asked.username)) == asked.username != ""
    ensures ClaimOf(reader, isPoint, asked) == Ok(Claim("unregister", domain, asked.username, None))
  {
  }

  // ---- a proof is for one SERVICE ----

  ghost predicate EncodesText(reader: Hosts.Reader) {
    forall s, t :: reader.utf8(s) == reader.utf8(t) ==> s == t
  }

  /**
   A proof checked twice, by any signers, is for one action at one domain for one username and one share, chain code and
   parity included; or the digests it verifies over are two; or two inputs to the hash collide.
   */
  lemma ProofIsForOneService(w: Crypto, reader: Hosts.Reader, isPoint: Bytes -> bool, signer: string, signature: Bytes,
                             p: Asked, again: string, q: Asked)
    requires EncodesText(reader)
    requires VerifyAddressProof(w, reader, isPoint, signer, signature, p)
    requires VerifyAddressProof(w, reader, isPoint, again, signature, q)
    requires ':' !in ClaimOf(reader, isPoint, p).value.domain && ':' !in ClaimOf(reader, isPoint, q).value.domain
    ensures var a, b := ClaimOf(reader, isPoint, p).value, ClaimOf(reader, isPoint, q).value;
      || a == b || ProofDigest(w, reader, a) != ProofDigest(w, reader, b)
      || Collides(w.sha256, Collision(reader.utf8(ClaimText(a)), reader.utf8(ClaimText(b))))
  {
    NamesOneDomain(ClaimOf(reader, isPoint, p).value, ClaimOf(reader, isPoint, q).value);
  }
}
