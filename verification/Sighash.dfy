/**
 What a spend's signature signs: BIP-341's common signature message for one fixed transaction bound to a mint's domain.
 */
module Sighash {
  import opened Prelude
  import opened Primitives
  import opened Taproot

  const KEY_PATH_LOCKTIME: u32 := 0
  const KEY_PATH_SEQUENCE: u32 := 0xFFFF_FFFF

  const TAP_SIGHASH: Bytes := Ascii("TapSighash")
  const MINT_TAG: Bytes := Ascii("LNURLcash/mint")

  /** Everything a signature commits to. `domain` is the mint's reduced hostname; no `leaf` is a key-path spend. */
  datatype Claim = Claim(outputKey: Bytes32, domain: Bytes, locktime: u32, sequence: u32, leaf: Option<Script>)

  function Prevout(H: Hash, domain: Bytes): Bytes32 {
    TaggedHash(H, MINT_TAG, domain)
  }

  function ScriptPubkey(outputKey: Bytes32): (b: Bytes)
    ensures |b| == 34
  {
    [0x51, 0x20] + outputKey
  }

  function Extension(H: Hash, leaf: Option<Script>): Bytes {
    match leaf
    case None => []
    case Some(script) => TapLeafHash(H, TAPLEAF_VERSION, script) + [0x00] + [0xFF, 0xFF, 0xFF, 0xFF]
  }

  /** `spend_sig_msg`. */
  function SigMsg(H: Hash, c: Claim): Bytes {
    [0x00] +
    LE32(2) + LE32(c.locktime) +
    H(Prevout(H, c.domain) + LE32(0)) +
    H(Zeros(8)) +
    H([34] + ScriptPubkey(c.outputKey)) +
    H(LE32(c.sequence)) +
    H(Zeros(8) + [0x00]) +
    [if c.leaf.None? then 0x00 else 0x02] +
    LE32(0) +
    Extension(H, c.leaf)
  }

  /** BIP-341's common signature message byte by byte, and BIP-342's extension after it. */
  ghost predicate LaidOut(H: Hash, c: Claim, m: Bytes) {
    && |m| == (if c.leaf.None? then 174 else 211)
    && m[0] == 0 && m[1..5] == LE32(2) && m[5..9] == LE32(c.locktime)
    && m[9..41] == H(Prevout(H, c.domain) + LE32(0)) && m[41..73] == H(Zeros(8))
    && m[73..105] == H([34] + ScriptPubkey(c.outputKey)) && m[105..137] == H(LE32(c.sequence))
    && m[137..169] == H(Zeros(8) + [0]) && m[169] == (if c.leaf.None? then 0 else 2) && m[170..174] == LE32(0)
    && (c.leaf.Some? ==>
          m[174..206] == TapLeafHash(H, TAPLEAF_VERSION, c.leaf.value) && m[206..] == [0, 0xFF, 0xFF, 0xFF, 0xFF])
  }

  datatype SigMsgError = KeyIsNot32Bytes

  /** `spend_sig_msg` as written, field after field: every byte of the message has its place in BIP-341's layout. */
  method BuildSigMsg(H: Hash, outputKey: Bytes, domain: Bytes, locktime: u32, sequence: u32, leaf: Option<Script>)
    returns (r: Result<Bytes, SigMsgError>)
    ensures r.Ok? <==> |outputKey| == 32
    ensures |outputKey| == 32 ==> LaidOut(H, Claim(outputKey, domain, locktime, sequence, leaf), r.value)
    ensures |outputKey| == 32 ==> r == Ok(SigMsg(H, Claim(outputKey, domain, locktime, sequence, leaf)))
  {
    if |outputKey| != 32 {
      return Err(KeyIsNot32Bytes);
    }
    var scriptPubkey := [0x51, 0x20] + outputKey;
    var msg: Bytes := [0x00];
    msg := msg + LE32(2) + LE32(locktime);
    msg := msg + H(Prevout(H, domain) + LE32(0));
    msg := msg + H(Zeros(8));
    msg := msg + H([|scriptPubkey|] + scriptPubkey);
    msg := msg + H(LE32(sequence));
    msg := msg + H(Zeros(8) + [0x00]);
    msg := msg + [if leaf.None? then 0x00 else 0x02];
    msg := msg + LE32(0);
    match leaf {
      case None => assert msg + [] == msg;
      case Some(script) => msg := msg + (TapLeafHash(H, TAPLEAF_VERSION, script) + [0x00] + [0xFF, 0xFF, 0xFF, 0xFF]);
    }
    SigMsgLayout(H, Claim(outputKey, domain, locktime, sequence, leaf));
    return Ok(msg);
  }

  function SighashOf(H: Hash, c: Claim): Bytes32 {
    TaggedHash(H, TAP_SIGHASH, [0x00] + SigMsg(H, c))
  }

  /** The two tagged hashes a spend's sighash is made of. */
  lemma SighashIs(H: Hash, c: Claim)
    ensures SighashOf(H, c) == TaggedHash(H, Ascii("TapSighash"), [0x00] + SigMsg(H, c))
    ensures Prevout(H, c.domain) == TaggedHash(H, Ascii("LNURLcash/mint"), c.domain)
  {
  }

  function KeyPathSighash(H: Hash, outputKey: Bytes32, domain: Bytes): Bytes32 {
    SighashOf(H, KeyPathClaim(outputKey, domain))
  }

  /** What a ck1's signature commits to: a key, a domain and no claimed time. */
  function KeyPathClaim(outputKey: Bytes32, domain: Bytes): Claim {
    Claim(outputKey, domain, KEY_PATH_LOCKTIME, KEY_PATH_SEQUENCE, None)
  }

  lemma LayoutLength(H: Hash, c: Claim)
    ensures |SigMsg(H, c)| == if c.leaf.None? then 174 else 211
  {
  }

  lemma LayoutHead(H: Hash, c: Claim)
    requires |SigMsg(H, c)| >= 174
    ensures SigMsg(H, c)[0] == 0 && SigMsg(H, c)[1..5] == LE32(2)
  {
  }

  lemma LayoutTime(H: Hash, c: Claim)
    requires |SigMsg(H, c)| >= 174
    ensures SigMsg(H, c)[5..9] == LE32(c.locktime)
  {
  }

  lemma LayoutHashes(H: Hash, c: Claim)
    requires |SigMsg(H, c)| >= 174
    ensures var m := SigMsg(H, c);
      && m[9..41] == H(Prevout(H, c.domain) + LE32(0)) && m[41..73] == H(Zeros(8))
      && m[73..105] == H([34] + ScriptPubkey(c.outputKey)) && m[105..137] == H(LE32(c.sequence))
  {
  }

  lemma LayoutTail(H: Hash, c: Claim)
    requires |SigMsg(H, c)| == if c.leaf.None? then 174 else 211
    ensures var m := SigMsg(H, c);
      && m[137..169] == H(Zeros(8) + [0]) && m[169] == (if c.leaf.None? then 0 else 2) && m[170..174] == LE32(0)
      && (c.leaf.Some? ==>
            m[174..206] == TapLeafHash(H, TAPLEAF_VERSION, c.leaf.value) && m[206..] == [0, 0xFF, 0xFF, 0xFF, 0xFF])
  {
  }

  /** The specified message is laid out so, and nothing else is. */
  lemma SigMsgLayout(H: Hash, c: Claim)
    ensures LaidOut(H, c, SigMsg(H, c))
  {
    LayoutLength(H, c);
    LayoutHead(H, c);
    LayoutTime(H, c);
    LayoutHashes(H, c);
    LayoutTail(H, c);
  }

  /** A key path claims no time: locktime 0 and the final sequence. */
  lemma KeyPathClaimsNoTime(H: Hash, outputKey: Bytes32, domain: Bytes)
    ensures var m := SigMsg(H, KeyPathClaim(outputKey, domain));
      |m| == 174 && FromLE(m[5..9]) == 0 && m[105..137] == H(LE32(0xFFFF_FFFF)) && m[169] == 0
  {
    SigMsgLayout(H, KeyPathClaim(outputKey, domain));
    PowBytes();
    FromToLE(0, 4);
  }

  /** The pairs of inputs two signature messages hash, layer by layer. */
  function HashedPairs(H: Hash, a: Claim, b: Claim): seq<Collision> {
    [TaggedCollision(H, TAP_SIGHASH, [0x00] + SigMsg(H, a), TAP_SIGHASH, [0x00] + SigMsg(H, b)),
     Collision(Prevout(H, a.domain) + LE32(0), Prevout(H, b.domain) + LE32(0)),
     TaggedCollision(H, MINT_TAG, a.domain, MINT_TAG, b.domain),
     Collision([34] + ScriptPubkey(a.outputKey), [34] + ScriptPubkey(b.outputKey)),
     Collision(LE32(a.sequence), LE32(b.sequence))] +
    if a.leaf.Some? && b.leaf.Some? then
      [TaggedCollision(H, TAP_LEAF, LeafMessage(TAPLEAF_VERSION, a.leaf.value), TAP_LEAF,
                       LeafMessage(TAPLEAF_VERSION, b.leaf.value))]
    else []
  }

  ghost predicate SomeCollision(H: Hash, pairs: seq<Collision>) {
    exists i :: 0 <= i < |pairs| && Collides(H, pairs[i])
  }

  /**
   A sighash binds its whole claim: two equal ones, of either kind of spend, are of the same output key, domain,
   locktime, sequence and leaf, or one of the pairs of inputs hashed along the way collides.
   */
  lemma SighashBinds(H: Hash, a: Claim, b: Claim)
    requires SighashOf(H, a) == SighashOf(H, b)
    ensures a == b || SomeCollision(H, HashedPairs(H, a, b))
  {
    var pairs := HashedPairs(H, a, b);
    if !SomeCollision(H, pairs) {
      assert !Collides(H, pairs[0]) && !Collides(H, pairs[1]) && !Collides(H, pairs[2]);
      assert !Collides(H, pairs[3]) && !Collides(H, pairs[4]);
      var m, n := SigMsg(H, a), SigMsg(H, b);
      TaggedBinds(H, TAP_SIGHASH, [0x00] + m, TAP_SIGHASH, [0x00] + n);
      assert ([0x00] + m)[1..] == m && ([0x00] + n)[1..] == n;
      SigMsgLayout(H, a);
      SigMsgLayout(H, b);
      LE32Injective(a.locktime, b.locktime);
      LE32Injective(a.sequence, b.sequence);
      SameDomain(H, a, b);
      SameKey(a, b);
      if a.leaf.Some? {
        assert !Collides(H, pairs[5]);
        TaggedBinds(H, TAP_LEAF, LeafMessage(TAPLEAF_VERSION, a.leaf.value), TAP_LEAF,
                    LeafMessage(TAPLEAF_VERSION, b.leaf.value));
        LeafMessageInjective(TAPLEAF_VERSION, a.leaf.value, TAPLEAF_VERSION, b.leaf.value);
      }
    }
  }

  lemma SameDomain(H: Hash, a: Claim, b: Claim)
    requires Prevout(H, a.domain) + LE32(0) == Prevout(H, b.domain) + LE32(0)
    requires !Collides(H, TaggedCollision(H, MINT_TAG, a.domain, MINT_TAG, b.domain))
    ensures a.domain == b.domain
  {
    assert (Prevout(H, a.domain) + LE32(0))[..32] == Prevout(H, a.domain);
    assert (Prevout(H, b.domain) + LE32(0))[..32] == Prevout(H, b.domain);
    TaggedBinds(H, MINT_TAG, a.domain, MINT_TAG, b.domain);
  }

  lemma SameKey(a: Claim, b: Claim)
    requires [34] + ScriptPubkey(a.outputKey) == [34] + ScriptPubkey(b.outputKey)
    ensures a.outputKey == b.outputKey
  {
    assert ([34] + ScriptPubkey(a.outputKey))[3..] == a.outputKey;
    assert ([34] + ScriptPubkey(b.outputKey))[3..] == b.outputKey;
  }
}
