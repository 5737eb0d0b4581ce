/** BIP-32 derivation from a wallet's root to its note keys, the watch-only half of it, and the tweak it superseded. */
module Keys {
  import opened Prelude
  import opened Primitives

  const HARDENED: int := 0x8000_0000
  const CHAIN_WALLET: int := 0
  const CHAIN_CHANGE: int := 1
  const CHAIN_SHARE: int := 2

  /** The curve, and the keyed and plain hashes derivation uses. */
  datatype Derivation = Derivation(
    curve: Curve,
    hmac512: (Bytes, Bytes) -> Bytes64,
    hmac256: (Bytes, Bytes) -> Bytes32,
    sha256: Hash)

  /** A BIP-32 extended private key. */
  datatype CashNode = CashNode(privateKey: Bytes32, chainCode: Bytes32)

  // ---- scalars as bytes ----

  function SecretBytes(k: Scalar): (b: Bytes32) {
    Pow256();
    ToBE(k, 32)
  }

  /** coincurve's check on a secret key: a scalar in [1, n). */
  function ReadSecret(b: Bytes32): Option<Scalar> {
    var k := FromBE(b);
    if 0 < k < N then Some(k) else None
  }

  lemma ReadSecretBytes(k: Scalar)
    ensures ReadSecret(SecretBytes(k)) == Some(k)
  {
    Pow256();
    FromToBE(k, 32);
  }

  // ---- the curve's laws can be met ----

  /**
   Coordinates that stand for a key and its negation together: the smaller of the two, and whether it was the larger.
   */
  const SMALLEST: Curve := Curve((k: Scalar) => SecretBytes(Smaller(k)), (k: Scalar) => k > N / 2)

  function Smaller(k: Scalar): Scalar {
    if k <= N / 2 then k else N - k
  }

  /** The assumptions made of the curve are not contradictory. */
  lemma CurvesExist()
    ensures IsCurve(SMALLEST)
  {
    forall k: Scalar, j: Scalar ensures SameX(SMALLEST, k, j) {
      ReadSecretBytes(Smaller(k));
      ReadSecretBytes(Smaller(j));
    }
  }

  // ---- BIP-32 ----

  /** What both halves of an unhardened step hash. */
  function ChildMaterial(d: Derivation, chainCode: Bytes32, key: Bytes, index: u32): Bytes64 {
    d.hmac512(chainCode, key + BE32(index))
  }

  /** CKDpriv, `derive_cash_child`: `None` where it raises. */
  function DeriveChild(d: Derivation, node: CashNode, index: int): Option<CashNode> {
    if !(0 <= index <= 0xFFFF_FFFF) then None
    else
      match ReadSecret(node.privateKey)
      case None => None
      case Some(k) =>
        var key := if index >= HARDENED then [0x00] + node.privateKey else Compressed(d.curve, k);
        var material := ChildMaterial(d, node.chainCode, key, index);
        match AddTweak(k, FromBE(material[..32]))
        case None => None
        case Some(child) => Some(CashNode(SecretBytes(child), material[32..]))
  }

  // ---- what a step is made of ----

  /** What BIP-32 hashes for a child: the key itself above 2^31, or its point, and the index. */
  function HardenedInput(k: Scalar, index: u32): Bytes {
    [0x00] + SecretBytes(k) + BE32(index)
  }

  function PointInput(c: Curve, k: Scalar, index: u32): Bytes {
    Compressed(c, k) + BE32(index)
  }

  /** Both inputs are 37 bytes, and no key and index of one kind are hashed as those of the other. */
  lemma InputsNeverMeet(c: Curve, k: Scalar, i: u32, j: Scalar, index: u32)
    ensures |HardenedInput(k, i)| == 37 == |PointInput(c, j, index)| && HardenedInput(k, i) != PointInput(c, j, index)
  {
    assert HardenedInput(k, i)[0] == 0 && PointInput(c, j, index)[0] == Compressed(c, j)[0];
  }

  /** And each input is of one key, or of it and its negation, and of one index. */
  lemma HardenedInputInjective(k: Scalar, i: u32, j: Scalar, index: u32)
    requires HardenedInput(k, i) == HardenedInput(j, index)
    ensures k == j && i == index
  {
    SplitsAlike([0x00] + SecretBytes(k), BE32(i), [0x00] + SecretBytes(j), BE32(index));
    SplitsAfter([0x00], SecretBytes(k), SecretBytes(j));
    ReadSecretBytes(k);
    ReadSecretBytes(j);
    PowBytes();
    FromToBE(i, 4);
    FromToBE(index, 4);
  }

  /**
   A child made from 64 bytes of keyed hash: its key the parent's plus the left half, its chain code the right half.
   */
  ghost predicate IsChild(k: Scalar, material: Bytes64, child: Option<CashNode>) {
    var t := FromBE(material[..32]);
    match child
    case None => t >= N || (k + t) % N == 0
    case Some(node) =>
      t < N && FromBE(node.privateKey) == (k + t) % N != 0 && node.chainCode == material[32..]
  }

  /**
   Exactly what CKDpriv makes of a key and an index: from 2^31 on out of the hash of the key itself, below out of the
   hash of its point, and nothing of a key or an index out of range.
   */
  lemma ChildExactly(d: Derivation, node: CashNode, index: int)
    ensures !IsU32(index) || FromBE(node.privateKey) == 0 || FromBE(node.privateKey) >= N ==>
              DeriveChild(d, node, index).None?
    ensures forall k: Scalar :: IsU32(index) && node.privateKey == SecretBytes(k) ==>
              IsChild(k, d.hmac512(node.chainCode,
                                   if index >= 0x8000_0000 then HardenedInput(k, index)
                                   else PointInput(d.curve, k, index)), DeriveChild(d, node, index))
  {
    forall k: Scalar | IsU32(index) && node.privateKey == SecretBytes(k)
      ensures IsChild(k, d.hmac512(node.chainCode,
                                   if index >= 0x8000_0000 then HardenedInput(k, index)
                                   else PointInput(d.curve, k, index)), DeriveChild(d, node, index))
    {
      ChildOfKey(d, node, k, index);
    }
  }

  lemma ChildOfKey(d: Derivation, node: CashNode, k: Scalar, index: u32)
    requires node.privateKey == SecretBytes(k)
    ensures IsChild(k, d.hmac512(node.chainCode,
                                 if index >= 0x8000_0000 then HardenedInput(k, index)
                                 else PointInput(d.curve, k, index)), DeriveChild(d, node, index))
  {
    ReadSecretBytes(k);
    var input := if index >= 0x8000_0000 then HardenedInput(k, index) else PointInput(d.curve, k, index);
    TweakedIsChild(k, d.hmac512(node.chainCode, input));
  }

  lemma TweakedIsChild(k: Scalar, material: Bytes64)
    ensures IsChild(k, material,
                    match AddTweak(k, FromBE(material[..32]))
                    case None => None
                    case Some(child) => Some(CashNode(SecretBytes(child), material[32..])))
  {
    match AddTweak(k, FromBE(material[..32]))
    case None =>
    case Some(child) => ReadSecretBytes(child);
  }

  /** So a hardened child depends on one value of the keyed hash, whatever else the hash does, and not on the curve. */
  lemma HardenedDependsOnOne(d: Derivation, e: Derivation, node: CashNode, k: Scalar, index: int)
    requires IsU32(index) && index >= 0x8000_0000 && node.privateKey == SecretBytes(k)
    requires d.hmac512(node.chainCode, HardenedInput(k, index)) == e.hmac512(node.chainCode, HardenedInput(k, index))
    ensures DeriveChild(d, node, index) == DeriveChild(e, node, index)
  {
    ReadSecretBytes(k);
  }

  /** And an unhardened one on one value too, at the point. */
  lemma UnhardenedDependsOnOne(d: Derivation, e: Derivation, node: CashNode, k: Scalar, index: int)
    requires 0 <= index < 0x8000_0000 && node.privateKey == SecretBytes(k) && d.curve == e.curve
    requires var input := PointInput(d.curve, k, index);
      d.hmac512(node.chainCode, input) == e.hmac512(node.chainCode, input)
    ensures DeriveChild(d, node, index) == DeriveChild(e, node, index)
  {
    ReadSecretBytes(k);
  }

  // ---- the public half ----

  datatype PublicNode = PublicNode(pubkey: Bytes, chainCode: Bytes)

  /** CKDpub, `derive_cash_child_pub`. */
  ghost function DeriveChildPub(d: Derivation, pubkey: Bytes, chainCode: Bytes, index: int): Option<PublicNode> {
    if !(0 <= index <= 0xFFFF_FFFF) || index >= HARDENED then None
    else if |pubkey| != 33 || |chainCode| != 32 then None
    else
      match ReadPoint(d.curve, pubkey)
      case None => None
      case Some(k) =>
        var material := ChildMaterial(d, chainCode, pubkey, index);
        match AddTweak(k, FromBE(material[..32]))
        case None => None
        case Some(child) => Some(PublicNode(Compressed(d.curve, child), material[32..]))
  }

  /** `cash_node_public_key`, compressed. */
  function PublicKey(d: Derivation, node: CashNode): Option<Bytes> {
    match ReadSecret(node.privateKey)
    case None => None
    case Some(k) => Some(Compressed(d.curve, k))
  }

  /** A node's public half. */
  function PublicOf(d: Derivation, node: CashNode): Option<PublicNode> {
    match PublicKey(d, node)
    case None => None
    case Some(pubkey) => Some(PublicNode(pubkey, node.chainCode))
  }

  /** One unhardened step commutes with publishing: CKDpub of a node's public half is the public half of its CKDpriv. */
  lemma ChildCommutes(d: Derivation, node: CashNode, public: PublicNode, index: int)
    requires IsCurve(d.curve) && 0 <= index < HARDENED && PublicOf(d, node) == Some(public)
    ensures match DeriveChild(d, node, index)
      case None => DeriveChildPub(d, public.pubkey, public.chainCode, index).None?
      case Some(child) =>
        PublicOf(d, child).Some? && DeriveChildPub(d, public.pubkey, public.chainCode, index) == PublicOf(d, child)
  {
    var k := ReadSecret(node.privateKey).value;
    ReadCompressed(d.curve, k);
    var material := ChildMaterial(d, node.chainCode, Compressed(d.curve, k), index);
    match AddTweak(k, FromBE(material[..32]))
    case None =>
    case Some(child) => ReadSecretBytes(child);
  }

  // ---- walking a path ----

  function Walk(d: Derivation, node: CashNode, indices: seq<int>): Option<CashNode> {
    if indices == [] then Some(node)
    else
      match Walk(d, node, indices[..|indices| - 1])
      case None => None
      case Some(parent) => DeriveChild(d, parent, indices[|indices| - 1])
  }

  /** The loop that rebinds one node along a list of indices. */
  method DeriveAlong(d: Derivation, start: CashNode, indices: seq<int>) returns (r: Option<CashNode>)
    ensures r == Walk(d, start, indices)
  {
    var node := start;
    for k := 0 to |indices|
      invariant Walk(d, start, indices[..k]) == Some(node)
    {
      assert indices[..k + 1][..k] == indices[..k];
      var child := DeriveChild(d, node, indices[k]);
      if child.None? {
        WalkFails(d, start, indices, k + 1);
        return None;
      }
      node := child.value;
    }
    assert indices[..|indices|] == indices;
    return Some(node);
  }

  lemma {:induction false} WalkFails(d: Derivation, start: CashNode, indices: seq<int>, k: nat)
    requires k <= |indices| && Walk(d, start, indices[..k]).None?
    ensures Walk(d, start, indices).None?
  {
    if k == |indices| {
      assert indices[..k] == indices;
    } else {
      var front := indices[..|indices| - 1];
      assert front[..k] == indices[..k];
      WalkFails(d, start, front, k);
    }
  }

  /** The four raw levels a mint's subtree hangs off, neither masked nor forced hardened. */
  function DomainIndices(d: Derivation, root: CashNode, domain: Bytes): Option<seq<int>> {
    match DeriveChild(d, root, 0)
    case None => None
    case Some(hashing) =>
      var m := d.hmac256(hashing.privateKey, domain);
      Some([FromBE(m[0..4]), FromBE(m[4..8]), FromBE(m[8..12]), FromBE(m[12..16])])
  }

  /** `derive_cash_domain_node`, for a reduced domain: see `DeriveAlong` for its walk. */
  function DeriveServiceRoot(d: Derivation, root: CashNode, domain: Bytes): Option<CashNode> {
    match DomainIndices(d, root, domain)
    case None => None
    case Some(indices) => Walk(d, root, indices)
  }

  /** The levels are the first 16 bytes of the keyed hash, four bytes a level and no bit masked. */
  lemma DomainLevelsKeepEveryBit(d: Derivation, root: CashNode, domain: Bytes)
    requires DomainIndices(d, root, domain).Some?
    ensures var levels := DomainIndices(d, root, domain).value;
      && |levels| == 4 && (forall i :: 0 <= i < 4 ==> IsU32(levels[i]))
      && BE32(levels[0]) + BE32(levels[1]) + BE32(levels[2]) + BE32(levels[3]) ==
         d.hmac256(DeriveChild(d, root, 0).value.privateKey, domain)[..16]
  {
    var m := d.hmac256(DeriveChild(d, root, 0).value.privateKey, domain);
    FourBytes(m[0..4]);
    FourBytes(m[4..8]);
    FourBytes(m[8..12]);
    FourBytes(m[12..16]);
    assert m[0..4] + m[4..8] + m[8..12] + m[12..16] == m[..16];
  }

  /**
   Two domains have the same levels exactly when their keyed hashes agree on the first 16 bytes, and then they have one
   SERVICE root: nothing else about a domain tells its notes apart.
   */
  lemma LevelsTellDomainsApart(d: Derivation, root: CashNode, a: Bytes, b: Bytes)
    requires DeriveChild(d, root, 0).Some?
    ensures var key := DeriveChild(d, root, 0).value.privateKey;
      DomainIndices(d, root, a) == DomainIndices(d, root, b) <==> d.hmac256(key, a)[..16] == d.hmac256(key, b)[..16]
    ensures DomainIndices(d, root, a) == DomainIndices(d, root, b) ==>
            DeriveServiceRoot(d, root, a) == DeriveServiceRoot(d, root, b)
  {
    var key := DeriveChild(d, root, 0).value.privateKey;
    var m, n := d.hmac256(key, a), d.hmac256(key, b);
    DomainLevelsKeepEveryBit(d, root, a);
    DomainLevelsKeepEveryBit(d, root, b);
    if m[..16] == n[..16] {
      SameSlice(m, n, 0, 4);
      SameSlice(m, n, 4, 8);
      SameSlice(m, n, 8, 12);
      SameSlice(m, n, 12, 16);
    }
  }

  lemma SameSlice(m: Bytes, n: Bytes, from: nat, to: nat)
    requires from <= to <= 16 <= |m| && 16 <= |n| && m[..16] == n[..16]
    ensures m[from..to] == n[from..to]
  {
    assert m[..16][from..to] == m[from..to] && n[..16][from..to] == n[from..to];
  }

  lemma FourBytes(b: Bytes)
    requires |b| == 4
    ensures IsU32(FromBE(b)) && BE32(FromBE(b)) == b
  {
    PowBytes();
    ToFromBE(b);
  }

  // ---- notes below a service root ----

  datatype NotePath = NotePath(chain: int, account: int, index: int, share: Option<int>)

  function WalletPath(account: int, index: int): NotePath {
    NotePath(CHAIN_WALLET, account, index, None)
  }

  function ChangePath(account: int, index: int): NotePath {
    NotePath(CHAIN_CHANGE, account, index, None)
  }

  function SharePath(account: int, share: int, index: int): NotePath {
    NotePath(CHAIN_SHARE, account, index, Some(share))
  }

  predicate BelowHardened(n: int) {
    0 <= n < HARDENED
  }

  /** `NotePath.indices`. */
  function Indices(p: NotePath): Option<seq<int>> {
    if !BelowHardened(p.account) then None
    else if p.chain == CHAIN_SHARE then
      if p.share.None? || !BelowHardened(p.share.value) || !BelowHardened(p.index) then None
      else Some([p.account + HARDENED, p.chain, p.share.value + HARDENED, p.index])
    else if (p.chain != CHAIN_WALLET && p.chain != CHAIN_CHANGE) || p.share.Some? || !BelowHardened(p.index) then None
    else Some([p.account + HARDENED, p.chain, p.index])
  }

  /** A path is valid exactly when it is one of the three kinds, every number in it below 2^31. */
  lemma IndicesExact(p: NotePath)
    ensures Indices(p).Some? <==>
            && BelowHardened(p.account) && BelowHardened(p.index)
            && (p == WalletPath(p.account, p.index) || p == ChangePath(p.account, p.index) ||
                (p.share.Some? && BelowHardened(p.share.value) && p == SharePath(p.account, p.share.value, p.index)))
  {
  }

  /** The places themselves: account and share are hardened, the kind and the note's own index are not. */
  lemma IndicesAre(account: int, share: int, index: int)
    requires BelowHardened(account) && BelowHardened(share) && BelowHardened(index)
    ensures Indices(WalletPath(account, index)) == Some([account + 0x8000_0000, 0, index])
    ensures Indices(ChangePath(account, index)) == Some([account + 0x8000_0000, 1, index])
    ensures Indices(SharePath(account, share, index)) == Some([account + 0x8000_0000, 2, share + 0x8000_0000, index])
  {
  }

  /** Different notes have different places in the tree. */
  lemma IndicesInjective(p: NotePath, q: NotePath)
    requires Indices(p).Some? && Indices(p) == Indices(q)
    ensures p == q
  {
    var a, b := Indices(p).value, Indices(q).value;
    assert a[0] == b[0] && a[1] == b[1] && a[2] == b[2] && a[|a| - 1] == b[|b| - 1];
  }

  datatype NoteKey = NoteKey(secretKey: Bytes32, pubkey: Bytes, outputKey: Bytes)

  /** `derive_note_key`. */
  function DeriveNoteKey(d: Derivation, root: CashNode, path: NotePath): Option<NoteKey> {
    match Indices(path)
    case None => None
    case Some(indices) =>
      match Walk(d, root, indices)
      case None => None
      case Some(node) =>
        match PublicKey(d, node)
        case None => None
        case Some(pubkey) => if |pubkey| == 33 then Some(NoteKey(node.privateKey, pubkey, pubkey[1..])) else None
  }

  /**
   A derived note is one key: its secret, the point of that secret, and the x coordinate the SERVICE files it under.
   */
  lemma NoteKeyIsOne(d: Derivation, root: CashNode, path: NotePath)
    requires DeriveNoteKey(d, root, path).Some?
    ensures var note := DeriveNoteKey(d, root, path).value;
      && Walk(d, root, Indices(path).value).Some?
      && note.secretKey == Walk(d, root, Indices(path).value).value.privateKey
      && ReadSecret(note.secretKey).Some?
      && note.pubkey == Compressed(d.curve, ReadSecret(note.secretKey).value)
      && note.outputKey == d.curve.x(ReadSecret(note.secretKey).value)
  {
  }

  /** `derive_share_node`: two steps, the check on the share, and a third. */
  function DeriveShareNode(d: Derivation, root: CashNode, account: int, share: int): Option<CashNode> {
    if !BelowHardened(account) then None
    else
      match Walk(d, root, [account + HARDENED, CHAIN_SHARE])
      case None => None
      case Some(chain) => if !BelowHardened(share) then None else DeriveChild(d, chain, share + HARDENED)
  }

  /** A share's exported half. */
  datatype Cx1 = Cx1(chainCode: Bytes, pubkey: Bytes)

  function ShareCx1(d: Derivation, node: CashNode): Option<Cx1> {
    match PublicKey(d, node)
    case None => None
    case Some(pubkey) => Some(Cx1(node.chainCode, pubkey))
  }

  /** `derive_note_pubkey`. */
  ghost function DeriveNotePubkey(d: Derivation, cx1: Cx1, index: int): Option<Bytes> {
    match DeriveChildPub(d, cx1.pubkey, cx1.chainCode, index)
    case None => None
    case Some(child) => if |child.pubkey| == 33 then Some(child.pubkey[1..]) else None
  }

  /** The share node is the first three levels of a share note's path. */
  lemma ShareNodeOnPath(d: Derivation, root: CashNode, account: int, share: int)
    requires BelowHardened(account) && BelowHardened(share)
    ensures DeriveShareNode(d, root, account, share) ==
            Walk(d, root, [account + HARDENED, CHAIN_SHARE, share + HARDENED])
  {
    WalkNext(d, root, [account + HARDENED, CHAIN_SHARE], share + HARDENED);
    assert [account + HARDENED, CHAIN_SHARE] + [share + HARDENED] ==
           [account + HARDENED, CHAIN_SHARE, share + HARDENED];
  }

  lemma WalkNext(d: Derivation, start: CashNode, path: seq<int>, index: int)
    ensures Walk(d, start, path + [index]) ==
            match Walk(d, start, path)
            case None => None
            case Some(node) => DeriveChild(d, node, index)
  {
    assert (path + [index])[..|path|] == path;
  }

  /** A derived node always holds a valid key. */
  lemma ChildKeyValid(d: Derivation, node: CashNode, index: int)
    requires DeriveChild(d, node, index).Some?
    ensures ReadSecret(DeriveChild(d, node, index).value.privateKey).Some?
  {
    var k := ReadSecret(node.privateKey).value;
    var key := if index >= HARDENED then [0x00] + node.privateKey else Compressed(d.curve, k);
    var child := AddTweak(k, FromBE(ChildMaterial(d, node.chainCode, key, index)[..32])).value;
    ReadSecretBytes(child);
  }

  /**
   Watch-only derivation agrees with private derivation: for every service root, account, share and index below 2^31,
   the key a SERVICE derives from the share's cx1 is the output key of the note at that path, and it fails where that
   fails.
   */
  lemma WatchOnlyAgrees(d: Derivation, root: CashNode, account: int, share: int, index: int)
    requires IsCurve(d.curve) && BelowHardened(account) && BelowHardened(share) && BelowHardened(index)
    ensures match DeriveShareNode(d, root, account, share)
      case None => DeriveNoteKey(d, root, SharePath(account, share, index)).None?
      case Some(node) =>
        && ShareCx1(d, node).Some?
        && DeriveNotePubkey(d, ShareCx1(d, node).value, index) ==
           match DeriveNoteKey(d, root, SharePath(account, share, index))
           case None => None
           case Some(note) => Some(note.outputKey)
  {
    NoteBelowShare(d, root, account, share, index);
    match DeriveShareNode(d, root, account, share)
    case None =>
    case Some(node) =>
      ShareKeyValid(d, root, account, share);
      ChildCommutes(d, node, PublicOf(d, node).value, index);
  }

  lemma NoteBelowShare(d: Derivation, root: CashNode, account: int, share: int, index: int)
    requires BelowHardened(account) && BelowHardened(share) && BelowHardened(index)
    ensures Indices(SharePath(account, share, index)).Some?
    ensures Walk(d, root, Indices(SharePath(account, share, index)).value) ==
            match DeriveShareNode(d, root, account, share)
            case None => None
            case Some(node) => DeriveChild(d, node, index)
  {
    var above := [account + HARDENED, CHAIN_SHARE, share + HARDENED];
    ShareNodeOnPath(d, root, account, share);
    WalkNext(d, root, above, index);
    SharePathIndices(account, share, index);
  }

  lemma SharePathIndices(account: int, share: int, index: int)
    requires BelowHardened(account) && BelowHardened(share) && BelowHardened(index)
    ensures Indices(SharePath(account, share, index)) ==
            Some([account + HARDENED, CHAIN_SHARE, share + HARDENED] + [index])
  {
    assert [account + HARDENED, CHAIN_SHARE, share + HARDENED] + [index] ==
           [account + HARDENED, CHAIN_SHARE, share + HARDENED, index];
  }

  lemma ShareKeyValid(d: Derivation, root: CashNode, account: int, share: int)
    requires DeriveShareNode(d, root, account, share).Some?
    ensures ReadSecret(DeriveShareNode(d, root, account, share).value.privateKey).Some?
  {
    var chain := Walk(d, root, [account + HARDENED, CHAIN_SHARE]).value;
    ChildKeyValid(d, chain, share + HARDENED);
  }

  /** No share's cx1 derives a hardened index. */
  lemma HardenedRefused(d: Derivation, cx1: Cx1, index: int)
    requires !BelowHardened(index)
    ensures DeriveNotePubkey(d, cx1, index).None?
  {
  }

  // ---- the superseded tweak ----

  datatype LegacyCx1 = LegacyCx1(pubkeyXOnly: Bytes32, chainCode: Bytes32)

  /** `_tweak_for`. A `None` purpose is the scheme from before purposes. */
  function TweakFor(d: Derivation, x: Bytes32, chainCode: Bytes32, purpose: Option<int>, index: int): (t: Option<int>)
    ensures t.Some? ==> 0 <= t.value < N
  {
    var tag := d.sha256(Ascii("LNURLcash/derive"));
    if purpose.Some? && !IsU32(purpose.value) then None
    else if !IsU32(index) then None
    else
      var middle := if purpose.Some? then BE32(purpose.value) else [];
      Some(FromBE(d.sha256(tag + tag + x + chainCode + middle + BE32(index))) % N)
  }

  /** The tweak is the tagged hash of the branch, its chain code, the purpose if there is one, and the index. */
  lemma TweakInput(d: Derivation, x: Bytes32, chainCode: Bytes32, purpose: Option<int>, index: int)
    ensures match TweakFor(d, x, chainCode, purpose, index)
      case None => !IsU32(index) || (purpose.Some? && !IsU32(purpose.value))
      case Some(t) =>
        && IsU32(index) && (purpose.Some? ==> IsU32(purpose.value))
        && t == FromBE(TaggedHash(d.sha256, Ascii("LNURLcash/derive"), LegacyInput(x, chainCode, purpose, index))) % N
  {
    if TweakFor(d, x, chainCode, purpose, index).Some? {
      var tag: Bytes, middle := d.sha256(Ascii("LNURLcash/derive")), if purpose.Some? then BE32(purpose.value) else [];
      var key: Bytes, code: Bytes := x, chainCode;
      assert tag + tag + key + code + middle + BE32(index) == tag + tag + (key + code + middle + BE32(index));
    }
  }

  /** What it hashes. */
  function LegacyInput(x: Bytes32, chainCode: Bytes32, purpose: Option<int>, index: int): (b: Bytes)
    requires IsU32(index) && (purpose.Some? ==> IsU32(purpose.value))
    ensures |b| == if purpose.Some? then 72 else 68
  {
    x + chainCode + (if purpose.Some? then BE32(purpose.value) else []) + BE32(index)
  }

  /** `legacy_cx1_of`. */
  function LegacyCx1Of(d: Derivation, node: CashNode): Option<LegacyCx1> {
    match ReadSecret(node.privateKey)
    case None => None
    case Some(p) => Some(LegacyCx1(d.curve.x(p), node.chainCode))
  }

  /** A branch is exported as the x of its key's point and its chain code, whenever its key is one. */
  lemma LegacyCx1Is(d: Derivation, node: CashNode, p: Scalar)
    requires node.privateKey == SecretBytes(p)
    ensures LegacyCx1Of(d, node) == Some(LegacyCx1(d.curve.x(p), node.chainCode))
  {
    ReadSecretBytes(p);
  }

  /** `legacy_derive_note_pubkey`. */
  ghost function LegacyNotePubkey(d: Derivation, cx1: LegacyCx1, purpose: Option<int>, index: int): Option<Bytes32> {
    match TweakFor(d, cx1.pubkeyXOnly, cx1.chainCode, purpose, index)
    case None => None
    case Some(t) =>
      match LiftX(d.curve, cx1.pubkeyXOnly)
      case None => None
      case Some(branch) =>
        if t == 0 then Some(cx1.pubkeyXOnly)
        else
          match AddTweak(branch, t)
          case None => None
          case Some(note) => Some(d.curve.x(note))
  }

  /** The branch key lifted to even y, plus the tweak. */
  function Tweaked(c: Curve, p: Scalar, t: nat): (note: nat)
    ensures note < N
  {
    (EvenOf(c, p) + t) % N
  }

  /** `legacy_derive_note_secret_key`: a branch key with odd y is negated first. */
  function LegacyNoteSecret(d: Derivation, node: CashNode, purpose: Option<int>, index: int): Option<Bytes32> {
    match ReadSecret(node.privateKey)
    case None => None
    case Some(p) =>
      match TweakFor(d, d.curve.x(p), node.chainCode, purpose, index)
      case None => None
      case Some(t) =>
        var note := Tweaked(d.curve, p, t);
        if note == 0 then None else Some(SecretBytes(note))
  }

  /**
   The halves of the superseded tweak agree: for every branch key of either parity, every purpose or none, and every
   index, the watch-only key is the x coordinate of the secret key's point, and the same indices are unusable in both.
   */
  lemma LegacyHalvesAgree(d: Derivation, node: CashNode, purpose: Option<int>, index: int)
    requires IsCurve(d.curve) && LegacyCx1Of(d, node).Some?
    ensures match LegacyNoteSecret(d, node, purpose, index)
      case None => LegacyNotePubkey(d, LegacyCx1Of(d, node).value, purpose, index).None?
      case Some(secret) =>
        && ReadSecret(secret).Some?
        && LegacyNotePubkey(d, LegacyCx1Of(d, node).value, purpose, index) == Some(d.curve.x(ReadSecret(secret).value))
  {
    var p, cx1 := ReadSecret(node.privateKey).value, LegacyCx1Of(d, node).value;
    match TweakFor(d, d.curve.x(p), node.chainCode, purpose, index)
    case None =>
    case Some(t) =>
      TweakedSecret(d, node, p, purpose, index, t);
      TweakedPubkey(d, cx1, p, purpose, index, t);
      if Tweaked(d.curve, p, t) != 0 {
        ReadSecretBytes(Tweaked(d.curve, p, t));
      }
  }

  /** Negating an odd branch key first is lifting its x. */
  lemma TweakedSecret(d: Derivation, node: CashNode, p: Scalar, purpose: Option<int>, index: int, t: nat)
    requires ReadSecret(node.privateKey) == Some(p)
    requires TweakFor(d, d.curve.x(p), node.chainCode, purpose, index) == Some(t)
    ensures LegacyNoteSecret(d, node, purpose, index) ==
            if Tweaked(d.curve, p, t) == 0 then None else Some(SecretBytes(Tweaked(d.curve, p, t)))
  {
  }

  /** Adding the tweak to the key is adding it to the point. */
  lemma TweakedPubkey(d: Derivation, cx1: LegacyCx1, p: Scalar, purpose: Option<int>, index: int, t: nat)
    requires IsCurve(d.curve) && cx1.pubkeyXOnly == d.curve.x(p)
    requires TweakFor(d, cx1.pubkeyXOnly, cx1.chainCode, purpose, index) == Some(t)
    ensures LegacyNotePubkey(d, cx1, purpose, index) ==
            if Tweaked(d.curve, p, t) == 0 then None else Some(d.curve.x(Tweaked(d.curve, p, t)))
  {
    var even := EvenOf(d.curve, p);
    LiftOfX(d.curve, p);
    assert SameX(d.curve, p, even);
    if t == 0 {
      Below(even);
    } else {
      PubkeyTweaks(d, cx1, even, purpose, index, t);
    }
  }

  lemma PubkeyTweaks(d: Derivation, cx1: LegacyCx1, even: Scalar, purpose: Option<int>, index: int, t: nat)
    requires TweakFor(d, cx1.pubkeyXOnly, cx1.chainCode, purpose, index) == Some(t) && t != 0
    requires LiftX(d.curve, cx1.pubkeyXOnly) == Some(even)
    ensures LegacyNotePubkey(d, cx1, purpose, index) ==
            match AddTweak(even, t) case None => None case Some(note) => Some(d.curve.x(note))
  {
  }

  lemma Below(k: Scalar)
    ensures (k + 0) % N == k
  {
  }
}
