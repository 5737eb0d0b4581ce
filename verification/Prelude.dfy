/** Options, results, bytes and the fixed-width integer encodings every wire format below is built from. */
module Prelude {
  datatype Option<+T> = None | Some(value: T)

  datatype Result<+T, +E> = Ok(value: T) | Err(error: E)

  type byte = n: int | 0 <= n < 256

  type Bytes = seq<byte>

  type Bytes32 = b: Bytes | |b| == 32 witness Zeros(32)

  type Bytes64 = b: Bytes | |b| == 64 witness Zeros(64)

  type u32 = n: int | 0 <= n <= 0xFFFF_FFFF

  predicate IsU32(n: int) {
    0 <= n <= 0xFFFF_FFFF
  }

  lemma Associates<T>(a: seq<T>, b: seq<T>, c: seq<T>)
    ensures a + b + c == a + (b + c)
  {
  }

  lemma StartsWithHead<T>(head: seq<T>, middle: seq<T>, tail: seq<T>)
    ensures (head + middle + tail)[..|head|] == head
  {
  }

  lemma LastOnTop<T>(s: seq<T>)
    requires s != []
    ensures s == s[..|s| - 1] + [s[|s| - 1]]
  {
  }

  /** What comes after the head of a sequence. */
  lemma DropsHead<T>(head: seq<T>, tail: seq<T>)
    ensures (head + tail)[|head|..] == tail
  {
  }

  /** Two sequences cut alike are equal exactly when their pieces are. */
  lemma SplitsAlike<T>(a: seq<T>, b: seq<T>, c: seq<T>, d: seq<T>)
    requires |b| == |d|
    ensures a + b == c + d <==> a == c && b == d
  {
    if a + b == c + d {
      assert a == (a + b)[..|a|] && b == (a + b)[|a|..] && c == (c + d)[..|c|] && d == (c + d)[|c|..];
    }
  }

  lemma SplitsAfter<T>(head: seq<T>, a: seq<T>, b: seq<T>)
    requires head + a == head + b
    ensures a == b
  {
    DropsHead(head, a);
    DropsHead(head, b);
  }

  function Repeat<T>(value: T, n: nat): (r: seq<T>)
    ensures |r| == n && forall i :: 0 <= i < n ==> r[i] == value
  {
    seq(n, _ => value)
  }

  function Zeros(n: nat): Bytes {
    Repeat(0, n)
  }

  lemma TimesSum(a: int, b: int, d: int)
    ensures (a + b) * d == a * d + b * d
  {
  }

  lemma TimesNat(a: nat, b: nat)
    ensures a * b >= 0
  {
  }

  /** Of two whole numbers, the larger times `d` exceeds the smaller by at least `d`. */
  lemma LessTimes(a: int, b: int, d: nat)
    ensures a < b ==> a * d + d <= b * d
  {
    if a < b {
      TimesSum(a + 1, b - a - 1, d);
      TimesSum(a, 1, d);
      TimesNat(b - a - 1, d);
    }
  }

  /** Quotient and remainder are unique. */
  lemma DivModUnique(n: int, d: nat, q: int, r: nat)
    requires n == q * d + r && r < d
    ensures n / d == q && n % d == r
  {
    LessTimes(n / d, q, d);
    LessTimes(q, n / d, d);
  }

  function Pow(b: nat, e: nat): (p: nat)
    ensures b > 0 ==> p > 0
  {
    if e == 0 then 1 else b * Pow(b, e - 1)
  }

  /** The `width` big-endian bytes of `n`, as `int.to_bytes(width, "big")` writes them. */
  function ToBE(n: nat, width: nat): (b: Bytes)
    requires n < Pow(256, width)
    ensures |b| == width
  {
    if width == 0 then [] else ToBE(n / 256, width - 1) + [n % 256]
  }

  /** `int.from_bytes(b, "big")`. */
  function FromBE(b: Bytes): (n: nat)
    ensures n < Pow(256, |b|)
  {
    if b == [] then 0 else 256 * FromBE(b[..|b| - 1]) + b[|b| - 1]
  }

  lemma {:induction false} FromToBE(n: nat, width: nat)
    requires n < Pow(256, width)
    ensures FromBE(ToBE(n, width)) == n
  {
    if width > 0 {
      FromToBE(n / 256, width - 1);
      assert ToBE(n, width)[..width - 1] == ToBE(n / 256, width - 1);
    }
  }

  lemma {:induction false} ToFromBE(b: Bytes)
    ensures ToBE(FromBE(b), |b|) == b
  {
    if b != [] {
      ToFromBE(b[..|b| - 1]);
      assert b == b[..|b| - 1] + [b[|b| - 1]];
    }
  }

  /** The most significant byte. */
  lemma {:induction false} FromBEHead(b: Bytes)
    requires b != []
    ensures FromBE(b) == b[0] * Pow(256, |b| - 1) + FromBE(b[1..])
  {
    if |b| > 1 {
      var front := b[..|b| - 1];
      FromBEHead(front);
      assert front[1..] == b[1..][..|b| - 2];
      Scaled(b[0], Pow(256, |b| - 2), FromBE(front[1..]));
    }
  }

  lemma Scaled(a: int, p: int, q: int)
    ensures 256 * (a * p + q) == a * (256 * p) + 256 * q
  {
  }

  function Reversed(b: Bytes): (r: Bytes)
    ensures |r| == |b|
    ensures forall i :: 0 <= i < |b| ==> r[i] == b[|b| - 1 - i]
  {
    seq(|b|, i requires 0 <= i < |b| => b[|b| - 1 - i])
  }

  /** `int.to_bytes(width, "little")`. */
  function ToLE(n: nat, width: nat): (b: Bytes)
    requires n < Pow(256, width)
    ensures |b| == width
  {
    Reversed(ToBE(n, width))
  }

  /** `int.from_bytes(b, "little")`. */
  function FromLE(b: Bytes): (n: nat)
    ensures n < Pow(256, |b|)
  {
    FromBE(Reversed(b))
  }

  lemma FromToLE(n: nat, width: nat)
    requires n < Pow(256, width)
    ensures FromLE(ToLE(n, width)) == n
  {
    assert Reversed(ToLE(n, width)) == ToBE(n, width);
    FromToBE(n, width);
  }

  lemma TimesAssociates(a: int, b: int, c: int)
    ensures a * (b * c) == (a * b) * c
  {
  }

  lemma {:induction false} PowSum(b: nat, m: nat, n: nat)
    ensures Pow(b, m + n) == Pow(b, m) * Pow(b, n)
  {
    if m > 0 {
      PowSum(b, m - 1, n);
      TimesAssociates(b, Pow(b, m - 1), Pow(b, n));
    }
  }

  /** What 32 bytes can hold. */
  lemma Pow256()
    ensures Pow(256, 32) == 0x1_0000000000000000_0000000000000000_0000000000000000_0000000000000000
  {
    PowBytes();
    PowSum(256, 4, 4);
    PowSum(256, 8, 8);
    PowSum(256, 16, 16);
  }

  lemma PowBytes()
    ensures Pow(256, 1) == 256 && Pow(256, 2) == 0x1_0000 && Pow(256, 4) == 0x1_0000_0000
  {
    assert Pow(256, 3) == 256 * Pow(256, 2);
  }

  /** Big-endian u32, `struct.pack(">I", n)`. */
  function BE32(n: u32): (b: Bytes)
    ensures |b| == 4
  {
    PowBytes();
    ToBE(n, 4)
  }

  /** Big-endian u16, `struct.pack(">H", n)`. */
  function BE16(n: nat): (b: Bytes)
    requires n <= 0xFFFF
    ensures |b| == 2
  {
    PowBytes();
    ToBE(n, 2)
  }

  /** Little-endian u32, `struct.pack("<I", n)`. */
  function LE32(n: u32): (b: Bytes)
    ensures |b| == 4
  {
    PowBytes();
    ToLE(n, 4)
  }

  lemma LE32Injective(m: u32, n: u32)
    requires LE32(m) == LE32(n)
    ensures m == n
  {
    PowBytes();
    FromToLE(m, 4);
    FromToLE(n, 4);
  }
}
