/**
 What the library takes from below: a hash, and a group of prime order with points written by their x coordinate.

 SHA-256 is any function to 32 bytes. The curve is its exponents: the point k*G is the scalar k in [1, n), and all that
 is assumed of coordinates is what holds of secp256k1, that k and n - k share an x, nothing else does, and their y
 coordinates have different parity.
 */
module Primitives {
  import opened Prelude

  type Hash = Bytes -> Bytes32

  /** The bytes of ASCII text. */
  function Ascii(s: string): (b: Bytes)
    ensures |b| == |s|
  {
    seq(|s|, i requires 0 <= i < |s| => s[i] as int % 256)
  }

  lemma AsciiJoins(a: string, b: string)
    ensures Ascii(a + b) == Ascii(a) + Ascii(b)
  {
  }

  /** BIP-340's tagged hash. */
  function TaggedPreimage(H: Hash, tag: Bytes, data: Bytes): Bytes {
    H(tag) + H(tag) + data
  }

  function TaggedHash(H: Hash, tag: Bytes, data: Bytes): Bytes32 {
    H(TaggedPreimage(H, tag, data))
  }

  // ---- explicit collisions ----

  datatype Collision = Collision(a: Bytes, b: Bytes)

  /** Two different inputs with the same hash. */
  predicate Collides(H: Hash, c: Collision) {
    c.a != c.b && H(c.a) == H(c.b)
  }

  /** Two inputs that collide whenever two different tagged messages hash to the same value. */
  function TaggedCollision(H: Hash, tagA: Bytes, a: Bytes, tagB: Bytes, b: Bytes): Collision {
    if tagA != tagB && H(tagA) == H(tagB) then Collision(tagA, tagB)
    else Collision(TaggedPreimage(H, tagA, a), TaggedPreimage(H, tagB, b))
  }

  lemma TaggedBinds(H: Hash, tagA: Bytes, a: Bytes, tagB: Bytes, b: Bytes)
    requires TaggedHash(H, tagA, a) == TaggedHash(H, tagB, b)
    ensures (tagA == tagB && a == b) || Collides(H, TaggedCollision(H, tagA, a, tagB, b))
  {
    var p, q := TaggedPreimage(H, tagA, a), TaggedPreimage(H, tagB, b);
    assert p[..32] == H(tagA) && q[..32] == H(tagB);
    assert p[64..] == a && q[64..] == b;
  }

  // ---- the curve ----

  const N: int := 0xFFFFFFFFFFFFFFFFFFFFFFFFFFFFFFFEBAAEDCE6AF48A03BBFD25E8CD0364141

  type Scalar = k: int | 1 <= k < N witness 1

  datatype Curve = Curve(x: Scalar -> Bytes32, odd: Scalar -> bool)

  function Negated(k: Scalar): Scalar {
    N - k
  }

  ghost predicate SameX(c: Curve, k: Scalar, j: Scalar) {
    c.x(k) == c.x(j) <==> j == k || j == Negated(k)
  }

  ghost predicate IsCurve(c: Curve) {
    && (forall k: Scalar, j: Scalar :: SameX(c, k, j))
    && (forall k: Scalar :: c.odd(Negated(k)) != c.odd(k))
  }

  /** BIP-340's `lift_x`: the point with this x and even y. */
  ghost function LiftX(c: Curve, x: Bytes): (r: Option<Scalar>)
    ensures r.Some? ==> c.x(r.value) == x && !c.odd(r.value)
    ensures r.None? ==> forall k: Scalar :: c.x(k) == x ==> c.odd(k)
  {
    if k: Scalar :| c.x(k) == x && !c.odd(k) then Some(k) else None
  }

  /** The even-y point of a scalar: itself, or its negation. */
  function EvenOf(c: Curve, k: Scalar): Scalar {
    if c.odd(k) then Negated(k) else k
  }

  lemma LiftOfX(c: Curve, k: Scalar)
    requires IsCurve(c)
    ensures LiftX(c, c.x(k)) == Some(EvenOf(c, k))
  {
    var e := EvenOf(c, k);
    assert SameX(c, k, e);
    assert c.x(e) == c.x(k) && !c.odd(e);
    var r := LiftX(c, c.x(k));
    assert SameX(c, e, r.value);
  }

  /**
   Adding t*G to a point: `None` for a tweak out of range or a sum at infinity, the two things libsecp256k1 refuses.
   */
  function AddTweak(k: Scalar, t: int): Option<Scalar>
    requires 0 <= t
  {
    if t >= N || (k + t) % N == 0 then None else Some((k + t) % N)
  }

  /** A point's compressed form. */
  function Compressed(c: Curve, k: Scalar): (b: Bytes)
    ensures |b| == 33 && b[1..] == c.x(k) && b[0] in {2, 3} && (b[0] == 3 <==> c.odd(k))
  {
    [if c.odd(k) then 3 else 2] + c.x(k)
  }

  /** Reading a compressed point. */
  ghost function ReadPoint(c: Curve, b: Bytes): (r: Option<Scalar>)
    ensures r.Some? ==> Compressed(c, r.value) == b
    ensures r.None? ==> forall k: Scalar :: Compressed(c, k) != b
  {
    if k: Scalar :| Compressed(c, k) == b then Some(k) else None
  }

  lemma ReadCompressed(c: Curve, k: Scalar)
    requires IsCurve(c)
    ensures ReadPoint(c, Compressed(c, k)) == Some(k)
  {
    var r := ReadPoint(c, Compressed(c, k));
    assert SameX(c, k, r.value);
    assert Compressed(c, k)[0] == Compressed(c, r.value)[0];
  }
}
