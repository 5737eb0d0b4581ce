/** BIP-341 output keys: the leaf hash, the merkle fold, the tweak, and the control block that carries a leaf's path. */
module Taproot {
  import opened Prelude
  import opened Primitives

  /** Tapscript's leaf version. */
  const TAPLEAF_VERSION: byte := 0xC0

  const MAX_MERKLE_DEPTH: nat := 128

  type Script = b: Bytes | |b| <= 0xFFFF_FFFF

  const TAP_LEAF: Bytes := Ascii("TapLeaf")
  const TAP_BRANCH: Bytes := Ascii("TapBranch")
  const TAP_TWEAK: Bytes := Ascii("TapTweak")

  function CompactSize(n: u32): (b: Bytes)
    ensures 1 <= |b| <= 5
  {
    PowBytes();
    if n < 0xFD then [n]
    else if n <= 0xFFFF then [0xFD] + ToLE(n, 2)
    else [0xFE] + ToLE(n, 4)
  }

  /** Below 253 a length is its own byte; above, a marker and two or four bytes, least significant first. */
  lemma CompactSizeIs(n: u32)
    ensures var b := CompactSize(n);
      if n <= 252 then b == [n]
      else if n <= 65535 then |b| == 3 && b[0] == 253 && FromLE(b[1..]) == n
      else |b| == 5 && b[0] == 254 && FromLE(b[1..]) == n
  {
    PowBytes();
    if n > 65535 {
      FromToLE(n, 4);
      assert CompactSize(n)[1..] == ToLE(n, 4);
    } else if n > 252 {
      FromToLE(n, 2);
      assert CompactSize(n)[1..] == ToLE(n, 2);
    }
  }

  /** A length prefix tells where it ends. */
  lemma CompactSizeSelfDelimiting(m: u32, a: Bytes, n: u32, b: Bytes)
    requires CompactSize(m) + a == CompactSize(n) + b
    ensures m == n && a == b
  {
    PowBytes();
    var s, t := CompactSize(m) + a, CompactSize(n) + b;
    assert s[0] == CompactSize(m)[0] && t[0] == CompactSize(n)[0];
    var width := |CompactSize(m)|;
    assert width == |CompactSize(n)|;
    assert s[..width] == CompactSize(m) && t[..width] == CompactSize(n);
    assert s[width..] == a && t[width..] == b;
    if width == 3 {
      assert CompactSize(m)[1..] == ToLE(m, 2) && CompactSize(n)[1..] == ToLE(n, 2);
      FromToLE(m, 2);
      FromToLE(n, 2);
    } else if width == 5 {
      assert CompactSize(m)[1..] == ToLE(m, 4) && CompactSize(n)[1..] == ToLE(n, 4);
      FromToLE(m, 4);
      FromToLE(n, 4);
    }
  }

  // ---- hashes of a script tree ----

  function LeafMessage(version: byte, script: Script): Bytes {
    [version] + (CompactSize(|script|) + script)
  }

  function TapLeafHash(H: Hash, version: byte, script: Script): Bytes32 {
    TaggedHash(H, TAP_LEAF, LeafMessage(version, script))
  }

  /** A leaf hashes its version, its length and its script under its own tag. */
  lemma LeafHashIs(H: Hash, version: byte, script: Script)
    ensures TapLeafHash(H, version, script) ==
            TaggedHash(H, Ascii("TapLeaf"), [version] + CompactSize(|script|) + script)
  {
    Associates([version], CompactSize(|script|), script);
  }

  lemma LeafMessageInjective(v: byte, s: Script, v': byte, s': Script)
    requires LeafMessage(v, s) == LeafMessage(v', s')
    ensures v == v' && s == s'
  {
    assert LeafMessage(v, s)[0] == v && LeafMessage(v', s')[0] == v';
    assert LeafMessage(v, s)[1..] == CompactSize(|s|) + s && LeafMessage(v', s')[1..] == CompactSize(|s'|) + s';
    CompactSizeSelfDelimiting(|s|, s, |s'|, s');
  }

  /** Python's order on byte strings. */
  predicate Below(a: Bytes, b: Bytes) {
    if b == [] then false
    else if a == [] then true
    else a[0] < b[0] || (a[0] == b[0] && Below(a[1..], b[1..]))
  }

  lemma {:induction false} BelowTotal(a: Bytes, b: Bytes)
    ensures !(Below(a, b) && Below(b, a))
    ensures Below(a, b) || Below(b, a) || a == b
  {
    if a != [] && b != [] {
      BelowTotal(a[1..], b[1..]);
      assert a == [a[0]] + a[1..] && b == [b[0]] + b[1..];
    }
  }

  /** `sorted((a, b))`, joined. */
  function BranchMessage(a: Bytes32, b: Bytes32): (m: Bytes)
    ensures |m| == 64
  {
    if Below(b, a) then b + a else a + b
  }

  lemma BranchMessageUnordered(a: Bytes32, b: Bytes32)
    ensures BranchMessage(a, b) == BranchMessage(b, a)
  {
    BelowTotal(a, b);
  }

  /** Byte order is the order of the numbers the bytes are, most significant first. */
  lemma {:induction false} BelowIsLess(a: Bytes, b: Bytes)
    requires |a| == |b|
    ensures Below(a, b) <==> FromBE(a) < FromBE(b)
  {
    if a != [] {
      BelowIsLess(a[1..], b[1..]);
      FromBEHead(a);
      FromBEHead(b);
      LessTimes(a[0], b[0], Pow(256, |a| - 1));
      LessTimes(b[0], a[0], Pow(256, |a| - 1));
    }
  }

  /** A branch hashes its two nodes under its own tag, with the lesser number first. */
  lemma BranchIsSorted(H: Hash, a: Bytes32, b: Bytes32)
    ensures BranchHash(H, a, b) == TaggedHash(H, Ascii("TapBranch"), BranchMessage(a, b))
    ensures var m := BranchMessage(a, b);
      && (m == a + b || m == b + a) && FromBE(m[..32]) <= FromBE(m[32..])
  {
    BelowIsLess(b, a);
    var m := BranchMessage(a, b);
    assert (a + b)[..32] == a && (a + b)[32..] == b && (b + a)[..32] == b && (b + a)[32..] == a;
  }

  lemma BranchMessageBinds(a: Bytes32, b: Bytes32, c: Bytes32, d: Bytes32)
    requires BranchMessage(a, b) == BranchMessage(c, d)
    ensures (a == c && b == d) || (a == d && b == c)
  {
    var m := BranchMessage(a, b);
    assert m[..32] == (if Below(b, a) then b else a) && m[32..] == (if Below(b, a) then a else b);
    assert m[..32] == (if Below(d, c) then d else c) && m[32..] == (if Below(d, c) then c else d);
  }

  function BranchHash(H: Hash, a: Bytes32, b: Bytes32): Bytes32 {
    TaggedHash(H, TAP_BRANCH, BranchMessage(a, b))
  }

  datatype Tree = Leaf(version: byte, script: Script) | Branch(left: Tree, right: Tree)

  function RootOf(H: Hash, t: Tree): Bytes32 {
    match t
    case Leaf(version, script) => TapLeafHash(H, version, script)
    case Branch(left, right) => BranchHash(H, RootOf(H, left), RootOf(H, right))
  }

  /** The leaf hash carried up a path, nearest sibling first. */
  function Fold(H: Hash, node: Bytes32, path: seq<Bytes32>): Bytes32 {
    if path == [] then node else BranchHash(H, Fold(H, node, path[..|path| - 1]), path[|path| - 1])
  }

  /** Where a leaf is, from the root down. */
  datatype Turn = Left | Right

  predicate LeafAt(t: Tree, turns: seq<Turn>, version: byte, script: Script) {
    match t
    case Leaf(v, s) => turns == [] && v == version && s == script
    case Branch(left, right) =>
      turns != [] && LeafAt(if turns[0].Left? then left else right, turns[1..], version, script)
  }

  /** The siblings beside the way to a leaf, nearest first: what its control block carries. */
  function Siblings(H: Hash, t: Tree, turns: seq<Turn>): (path: seq<Bytes32>)
    ensures |path| <= |turns|
  {
    match t
    case Leaf(_, _) => []
    case Branch(left, right) =>
      if turns == [] then []
      else if turns[0].Left? then Siblings(H, left, turns[1..]) + [RootOf(H, right)]
      else Siblings(H, right, turns[1..]) + [RootOf(H, left)]
  }

  /** Complete: a leaf of a tree, folded up its own siblings, reaches the root. */
  lemma {:induction false} FoldReachesRoot(H: Hash, t: Tree, turns: seq<Turn>, version: byte, script: Script)
    requires LeafAt(t, turns, version, script)
    ensures Fold(H, TapLeafHash(H, version, script), Siblings(H, t, turns)) == RootOf(H, t)
    decreases t
  {
    if t.Branch? {
      var path := Siblings(H, t, turns);
      if turns[0].Left? {
        FoldReachesRoot(H, t.left, turns[1..], version, script);
        assert path[..|path| - 1] == Siblings(H, t.left, turns[1..]);
      } else {
        FoldReachesRoot(H, t.right, turns[1..], version, script);
        assert path[..|path| - 1] == Siblings(H, t.right, turns[1..]);
        BranchMessageUnordered(RootOf(H, t.left), RootOf(H, t.right));
      }
    }
  }

  /** What a path that reaches a tree's root gives away: where its leaf is, or two colliding inputs. */
  datatype Opening = At(turns: seq<Turn>) | Broken(collision: Collision)

  function Trace(H: Hash, t: Tree, version: byte, script: Script, path: seq<Bytes32>): Opening
    decreases t
  {
    var leaf := TapLeafHash(H, version, script);
    var message := LeafMessage(version, script);
    if path == [] then
      match t
      case Leaf(v, s) =>
        if LeafMessage(v, s) == message then At([])
        else Broken(TaggedCollision(H, TAP_LEAF, message, TAP_LEAF, LeafMessage(v, s)))
      case Branch(l, r) =>
        Broken(TaggedCollision(H, TAP_LEAF, message, TAP_BRANCH, BranchMessage(RootOf(H, l), RootOf(H, r))))
    else
      var front, sibling := path[..|path| - 1], path[|path| - 1];
      var branch := BranchMessage(Fold(H, leaf, front), sibling);
      match t
      case Leaf(v, s) => Broken(TaggedCollision(H, TAP_BRANCH, branch, TAP_LEAF, LeafMessage(v, s)))
      case Branch(l, r) =>
        if BranchMessage(RootOf(H, l), RootOf(H, r)) != branch then
          Broken(TaggedCollision(H, TAP_BRANCH, branch, TAP_BRANCH, BranchMessage(RootOf(H, l), RootOf(H, r))))
        else if Fold(H, leaf, front) == RootOf(H, l) then Turned(Left, Trace(H, l, version, script, front))
        else Turned(Right, Trace(H, r, version, script, front))
  }

  function Turned(turn: Turn, o: Opening): Opening {
    if o.At? then At([turn] + o.turns) else o
  }

  /** An opening holds: its leaf is there and beside that path, or its inputs collide. */
  ghost predicate Holds(H: Hash, t: Tree, version: byte, script: Script, path: seq<Bytes32>, o: Opening) {
    match o
    case At(turns) => LeafAt(t, turns, version, script) && Siblings(H, t, turns) == path
    case Broken(c) => Collides(H, c)
  }

  lemma NoPathSound(H: Hash, t: Tree, version: byte, script: Script)
    requires TapLeafHash(H, version, script) == RootOf(H, t)
    ensures Holds(H, t, version, script, [], Trace(H, t, version, script, []))
  {
    var message := LeafMessage(version, script);
    TagsDiffer();
    match t
    case Leaf(v, s) =>
      TaggedBinds(H, TAP_LEAF, message, TAP_LEAF, LeafMessage(v, s));
      if LeafMessage(v, s) == message {
        LeafMessageInjective(v, s, version, script);
      }
    case Branch(l, r) =>
      TaggedBinds(H, TAP_LEAF, message, TAP_BRANCH, BranchMessage(RootOf(H, l), RootOf(H, r)));
  }

  lemma PathToLeafSound(H: Hash, v: byte, s: Script, version: byte, script: Script, path: seq<Bytes32>)
    requires path != [] && Fold(H, TapLeafHash(H, version, script), path) == TapLeafHash(H, v, s)
    ensures Holds(H, Leaf(v, s), version, script, path, Trace(H, Leaf(v, s), version, script, path))
  {
    var below := Fold(H, TapLeafHash(H, version, script), path[..|path| - 1]);
    TagsDiffer();
    TaggedBinds(H, TAP_BRANCH, BranchMessage(below, path[|path| - 1]), TAP_LEAF, LeafMessage(v, s));
  }

  /** One step down a branch, given that the step's subtree is sound. */
  lemma PathToBranchSound(H: Hash, l: Tree, r: Tree, version: byte, script: Script, path: seq<Bytes32>)
    requires path != [] && Fold(H, TapLeafHash(H, version, script), path) == RootOf(H, Branch(l, r))
    requires var below := Fold(H, TapLeafHash(H, version, script), path[..|path| - 1]);
      && (below == RootOf(H, l) ==>
            Holds(H, l, version, script, path[..|path| - 1], Trace(H, l, version, script, path[..|path| - 1])))
      && (below == RootOf(H, r) ==>
            Holds(H, r, version, script, path[..|path| - 1], Trace(H, r, version, script, path[..|path| - 1])))
    ensures Holds(H, Branch(l, r), version, script, path, Trace(H, Branch(l, r), version, script, path))
  {
    var front, sibling := path[..|path| - 1], path[|path| - 1];
    var below := Fold(H, TapLeafHash(H, version, script), front);
    var branch, children := BranchMessage(below, sibling), BranchMessage(RootOf(H, l), RootOf(H, r));
    TaggedBinds(H, TAP_BRANCH, branch, TAP_BRANCH, children);
    if children == branch {
      BranchMessageBinds(below, sibling, RootOf(H, l), RootOf(H, r));
      LastOnTop(path);
      if below == RootOf(H, l) {
        TurnedHolds(H, l, r, Left, Trace(H, l, version, script, front), version, script, path);
      } else {
        TurnedHolds(H, l, r, Right, Trace(H, r, version, script, front), version, script, path);
      }
    }
  }

  lemma TurnedHolds(H: Hash, l: Tree, r: Tree, turn: Turn, o: Opening, version: byte, script: Script,
                    path: seq<Bytes32>)
    requires path != [] && path[|path| - 1] == RootOf(H, if turn.Left? then r else l)
    requires Holds(H, if turn.Left? then l else r, version, script, path[..|path| - 1], o)
    ensures Holds(H, Branch(l, r), version, script, path, Turned(turn, o))
  {
    if o.At? {
      assert ([turn] + o.turns)[1..] == o.turns;
      LastOnTop(path);
    }
  }

  /**
   Sound: a script that reaches a tree's root is one of its leaves, at that path, or two inputs to the hash collide.
   */
  lemma {:induction false} FoldSound(H: Hash, t: Tree, version: byte, script: Script, path: seq<Bytes32>)
    requires Fold(H, TapLeafHash(H, version, script), path) == RootOf(H, t)
    ensures Holds(H, t, version, script, path, Trace(H, t, version, script, path))
    decreases t
  {
    if path == [] {
      NoPathSound(H, t, version, script);
    } else {
      var front := path[..|path| - 1];
      match t
      case Leaf(v, s) => PathToLeafSound(H, v, s, version, script, path);
      case Branch(l, r) =>
        if Fold(H, TapLeafHash(H, version, script), front) == RootOf(H, l) {
          FoldSound(H, l, version, script, front);
        }
        if Fold(H, TapLeafHash(H, version, script), front) == RootOf(H, r) {
          FoldSound(H, r, version, script, front);
        }
        PathToBranchSound(H, l, r, version, script, path);
    }
  }

  lemma TagsDiffer()
    ensures TAP_LEAF != TAP_BRANCH
  {
    assert |TAP_LEAF| == 7 && |TAP_BRANCH| == 9;
  }

  // ---- the output key ----

  datatype Tweaked = Tweaked(key: Bytes32, odd: bool)

  /** `taproot_tweak`: `None` where it raises, for a key that is no point or a tweak out of range. */
  ghost function TaprootTweak(H: Hash, c: Curve, internalKey: Bytes, root: Bytes): Option<Tweaked> {
    if |root| != 0 && |root| != 32 then None
    else
      match LiftX(c, internalKey)
      case None => None
      case Some(k) =>
        match AddTweak(k, FromBE(TaggedHash(H, TAP_TWEAK, internalKey + root)))
        case None => None
        case Some(q) => Some(Tweaked(c.x(q), c.odd(q)))
  }

  /**
   Exactly what a tweak makes of a key, with a root or with none: the lifted key plus the tagged hash of it and the
   root, and where that fails.
   */
  lemma TweakExactly(H: Hash, c: Curve, k: Scalar, root: Bytes)
    requires IsCurve(c) && !c.odd(k)
    ensures var t := FromBE(TaggedHash(H, Ascii("TapTweak"), c.x(k) + root));
      match TaprootTweak(H, c, c.x(k), root)
      case None => (|root| != 0 && |root| != 32) || t >= N || (k + t) % N == 0
      case Some(q) =>
        && (|root| == 0 || |root| == 32) && t < N && (k + t) % N != 0
        && q.key == c.x((k + t) % N) && q.odd == c.odd((k + t) % N)
  {
    LiftOfX(c, k);
  }

  /** The 32-byte siblings after a control block's internal key. */
  function Chunks(b: Bytes): (path: seq<Bytes32>)
    requires |b| % 32 == 0
    ensures |path| == |b| / 32
  {
    if b == [] then [] else Chunks(b[..|b| - 32]) + [b[|b| - 32..]]
  }

  function Join(path: seq<Bytes32>): (b: Bytes)
    ensures |b| == 32 * |path|
  {
    if path == [] then [] else Join(path[..|path| - 1]) + path[|path| - 1]
  }

  lemma {:induction false} ChunksOfJoin(path: seq<Bytes32>)
    ensures Chunks(Join(path)) == path
  {
    if path != [] {
      var front, last, b := path[..|path| - 1], path[|path| - 1], Join(path);
      ChunksOfJoin(front);
      assert b[..|b| - 32] == Join(front) && b[|b| - 32..] == last;
    }
  }

  /** A leaf hash carried up the first `n` siblings of a control block. */
  ghost function FoldUpTo(H: Hash, leaf: Bytes32, block: Bytes, n: nat): Bytes32
    requires 33 + 32 * n <= |block|
  {
    Fold(H, leaf, Chunks(block[33..33 + 32 * n]))
  }

  /** One more 32-byte slice is one more chunk. */
  lemma ChunksNext(block: Bytes, n: nat)
    requires 33 + 32 * (n + 1) <= |block|
    ensures Chunks(block[33..33 + 32 * (n + 1)]) ==
            Chunks(block[33..33 + 32 * n]) + [block[33 + 32 * n..33 + 32 * (n + 1)]]
  {
    var b := block[33..33 + 32 * (n + 1)];
    assert b[..|b| - 32] == block[33..33 + 32 * n] && b[|b| - 32..] == block[33 + 32 * n..33 + 32 * (n + 1)];
  }

  lemma FoldNext(H: Hash, leaf: Bytes32, path: seq<Bytes32>, sibling: Bytes32)
    ensures Fold(H, leaf, path + [sibling]) == BranchHash(H, Fold(H, leaf, path), sibling)
  {
    assert (path + [sibling])[..|path|] == path;
  }

  /** Folding one more slice is one more branch. */
  lemma FoldSlice(H: Hash, leaf: Bytes32, block: Bytes, n: nat)
    requires 33 + 32 * (n + 1) <= |block|
    ensures FoldUpTo(H, leaf, block, n + 1) ==
            BranchHash(H, FoldUpTo(H, leaf, block, n), block[33 + 32 * n..33 + 32 * (n + 1)])
  {
    ChunksNext(block, n);
    FoldNext(H, leaf, Chunks(block[33..33 + 32 * n]), block[33 + 32 * n..33 + 32 * (n + 1)]);
  }

  lemma FoldWhole(H: Hash, leaf: Bytes32, block: Bytes, n: nat)
    requires |block| == 33 + 32 * n
    ensures FoldUpTo(H, leaf, block, n) == Fold(H, leaf, Chunks(block[33..]))
  {
    assert block[33..33 + 32 * n] == block[33..];
  }

  lemma NextSliceFits(length: nat, n: nat)
    requires length >= 33 && (length - 33) % 32 == 0 && 33 + 32 * n < length
    ensures 33 + 32 * (n + 1) <= length
  {
  }

  /** The loop that carries a leaf hash up a control block, 32 bytes at a time from offset 33. */
  method FoldControlBlock(H: Hash, leaf: Bytes32, block: Bytes) returns (root: Bytes32)
    requires |block| >= 33 && (|block| - 33) % 32 == 0
    ensures root == Fold(H, leaf, Chunks(block[33..]))
  {
    root := leaf;
    ghost var done: nat := 0;
    var i := 33;
    while i < |block|
      invariant i == 33 + 32 * done <= |block|
      invariant root == FoldUpTo(H, leaf, block, done)
    {
      NextSliceFits(|block|, done);
      FoldSlice(H, leaf, block, done);
      root := BranchHash(H, root, block[i..i + 32]);
      i, done := i + 32, done + 1;
    }
    FoldWhole(H, leaf, block, done);
  }

  /** `output_key_of`: the key a leaf and its control block commit to. */
  ghost function OutputKeyOf(H: Hash, c: Curve, script: Script, block: Bytes): Option<Bytes32> {
    if |block| < 33 || (|block| - 33) % 32 != 0 || (|block| - 33) / 32 > MAX_MERKLE_DEPTH then None
    else
      var version := block[0] - block[0] % 2;
      var root := Fold(H, TapLeafHash(H, version, script), Chunks(block[33..]));
      match TaprootTweak(H, c, block[1..33], root)
      case None => None
      case Some(q) => if q.odd == (block[0] % 2 == 1) then Some(q.key) else None
  }

  /**
   A control block that opens anything is 33 bytes and up to 128 siblings, and with its parity bit flipped opens
   nothing.
   */
  lemma OpensOnlyWellFormed(H: Hash, c: Curve, script: Script, block: Bytes)
    requires OutputKeyOf(H, c, script, block).Some?
    ensures exists n: nat :: n <= 128 && |block| == 33 + 32 * n
    ensures OutputKeyOf(H, c, script, Flipped(block)).None?
  {
    assert |block| == 33 + 32 * ((|block| - 33) / 32);
    assert Flipped(block)[33..] == block[33..] && Flipped(block)[1..33] == block[1..33];
    FlippedVersion(block);
  }

  /** A control block with its parity bit flipped. */
  function Flipped(block: Bytes): (b: Bytes)
    requires block != []
    ensures |b| == |block|
  {
    [if block[0] % 2 == 0 then block[0] + 1 else block[0] - 1] + block[1..]
  }

  lemma FlippedVersion(block: Bytes)
    requires block != []
    ensures Flipped(block)[0] - Flipped(block)[0] % 2 == block[0] - block[0] % 2
    ensures Flipped(block)[0] % 2 != block[0] % 2
  {
  }

  function ControlBlock(version: byte, odd: bool, internalKey: Bytes32, path: seq<Bytes32>): (b: Bytes)
    requires version % 2 == 0
    ensures |b| == 33 + 32 * |path|
  {
    [version + if odd then 1 else 0] + internalKey + Join(path)
  }

  /** A control block's parts come back out of it. */
  lemma ControlBlockParts(version: byte, odd: bool, internalKey: Bytes32, path: seq<Bytes32>)
    requires version % 2 == 0
    ensures var b := ControlBlock(version, odd, internalKey, path);
      && b[0] - b[0] % 2 == version && (b[0] % 2 == 1 <==> odd)
      && b[1..33] == internalKey && |b[33..]| % 32 == 0 && Chunks(b[33..]) == path
  {
    var b := ControlBlock(version, odd, internalKey, path);
    assert b[33..] == Join(path);
    ChunksOfJoin(path);
  }

  /**
   Complete: for every script tree and every leaf of it no deeper than 128, the control block made of the leaf's
   siblings opens exactly the tree's output key.
   */
  lemma LeafOpensTree(H: Hash, c: Curve, t: Tree, turns: seq<Turn>, version: byte, script: Script, internalKey: Bytes32)
    requires LeafAt(t, turns, version, script) && version % 2 == 0 && |turns| <= MAX_MERKLE_DEPTH
    requires TaprootTweak(H, c, internalKey, RootOf(H, t)).Some?
    ensures var q := TaprootTweak(H, c, internalKey, RootOf(H, t)).value;
      var block := ControlBlock(version, q.odd, internalKey, Siblings(H, t, turns));
      OutputKeyOf(H, c, script, block) == Some(q.key)
  {
    var q := TaprootTweak(H, c, internalKey, RootOf(H, t)).value;
    FoldReachesRoot(H, t, turns, version, script);
    ControlBlockParts(version, q.odd, internalKey, Siblings(H, t, turns));
  }

  /**
   Sound: whatever control block carries a script up to a tree's root, its version and script are a leaf of the tree
   with exactly those siblings, or two inputs to the hash collide.
   */
  lemma BlockNamesLeaf(H: Hash, t: Tree, script: Script, block: Bytes)
    requires |block| >= 33 && (|block| - 33) % 32 == 0
    requires Fold(H, TapLeafHash(H, block[0] - block[0] % 2, script), Chunks(block[33..])) == RootOf(H, t)
    ensures match Trace(H, t, block[0] - block[0] % 2, script, Chunks(block[33..]))
      case At(turns) =>
        LeafAt(t, turns, block[0] - block[0] % 2, script) && Siblings(H, t, turns) == Chunks(block[33..])
      case Broken(collision) => Collides(H, collision)
  {
    FoldSound(H, t, block[0] - block[0] % 2, script, Chunks(block[33..]));
  }

  // ---- the bearer note ----

  /** BIP-341's nothing-up-my-sleeve x coordinate: a note on it has no key path. */
  const NUMS_KEY: Bytes32 := [
    0x50, 0x92, 0x9B, 0x74, 0xC1, 0xA0, 0x49, 0x54, 0xB7, 0x8B, 0x4B, 0x60, 0x35, 0xE9, 0x7A, 0x5E,
    0x07, 0x8A, 0x5A, 0x0F, 0x28, 0xEC, 0x96, 0xD5, 0x47, 0xBF, 0xEE, 0x9A, 0xCE, 0x80, 0x3A, 0xC0]

  /** `OP_SHA256 <h> OP_EQUAL`. */
  function BearerLeaf(h: Bytes32): (leaf: Script)
    ensures |leaf| == 35
  {
    [0xA8, 0x20] + h + [0x87]
  }

  function BearerHashOfLeaf(script: Bytes): Option<Bytes32> {
    if |script| == 35 && script[0] == 0xA8 && script[1] == 0x20 && script[34] == 0x87 then Some(script[2..34]) else None
  }

  lemma BearerHashExact(script: Bytes, h: Bytes32)
    ensures BearerHashOfLeaf(script) == Some(h) <==> script == BearerLeaf(h)
  {
    assert BearerLeaf(h)[2..34] == h;
    if BearerHashOfLeaf(script) == Some(h) {
      assert script == [script[0], script[1]] + script[2..34] + [script[34]];
    }
  }

  datatype BearerNote = BearerNote(outputKey: Bytes32, controlBlock: Bytes, leaf: Script)

  /** `bearer_note`: `None` in the one case it raises, a tweak out of range. */
  ghost function BearerNoteOf(H: Hash, c: Curve, h: Bytes32): Option<BearerNote> {
    var leaf := BearerLeaf(h);
    match TaprootTweak(H, c, NUMS_KEY, TapLeafHash(H, TAPLEAF_VERSION, leaf))
    case None => None
    case Some(q) => Some(BearerNote(q.key, [TAPLEAF_VERSION + if q.odd then 1 else 0] + NUMS_KEY, leaf))
  }

  /**
   The guard: the tweak a bearer note's key needs is past the group's order or takes the fixed key to the point at
   infinity. That the fixed key is a point at all is so of secp256k1.
   */
  ghost predicate TweakRefused(H: Hash, c: Curve, h: Bytes32) {
    var t := FromBE(TaggedHash(H, TAP_TWEAK, NUMS_KEY + TapLeafHash(H, TAPLEAF_VERSION, BearerLeaf(h))));
    match LiftX(c, NUMS_KEY)
    case None => true
    case Some(k) => t >= N || (k + t) % N == 0
  }

  lemma BearerNoteExactly(H: Hash, c: Curve, h: Bytes32)
    ensures BearerNoteOf(H, c, h).None? <==> TweakRefused(H, c, h)
  {
  }

  /** A bearer note is the one-leaf tree: its own control block opens its own key. */
  lemma BearerNoteOpens(H: Hash, c: Curve, h: Bytes32)
    requires BearerNoteOf(H, c, h).Some?
    ensures var note := BearerNoteOf(H, c, h).value;
      OutputKeyOf(H, c, note.leaf, note.controlBlock) == Some(note.outputKey)
  {
    var note := BearerNoteOf(H, c, h).value;
    var t := Leaf(TAPLEAF_VERSION, BearerLeaf(h));
    var q := TaprootTweak(H, c, NUMS_KEY, RootOf(H, t)).value;
    LeafOpensTree(H, c, t, [], TAPLEAF_VERSION, BearerLeaf(h), NUMS_KEY);
    assert ControlBlock(TAPLEAF_VERSION, q.odd, NUMS_KEY, []) == note.controlBlock;
  }
}
