/** BIP-173's `convertbits`: regrouping a string of bits from one word width to another. */
module Regroup {
  import opened Prelude

  type Bit = b: nat | b < 2

  type Bits = seq<Bit>

  /** The low `width` bits of `n`, most significant first. */
  function BitsOf(n: nat, width: nat): (b: Bits)
    ensures |b| == width
  {
    if width == 0 then [] else BitsOf(n / 2, width - 1) + [n % 2]
  }

  function NumberOf(b: Bits): (n: nat)
    ensures n < Pow(2, |b|)
  {
    if b == [] then 0 else 2 * NumberOf(b[..|b| - 1]) + b[|b| - 1]
  }

  function ZeroBits(n: nat): Bits {
    Repeat(0, n)
  }

  /** Every word's bits, one word after another. */
  function BitString(words: seq<nat>, width: nat): (b: Bits) {
    if words == [] then [] else BitString(words[..|words| - 1], width) + BitsOf(words[|words| - 1], width)
  }

  /** A bit string cut into words. */
  function WordsOf(b: Bits, width: nat): (words: seq<nat>)
    requires width > 0 && |b| % width == 0
    ensures InRange(words, width)
  {
    if b == [] then []
    else
      DivisibleAtLeast(|b|, width);
      WordsOf(b[..|b| - width], width) + [NumberOf(b[|b| - width..])]
  }

  predicate InRange(data: seq<int>, width: nat) {
    forall i :: 0 <= i < |data| ==> 0 <= data[i] < Pow(2, width)
  }

  /** The bits missing from a whole number of words. */
  function Padding(length: nat, width: nat): (n: nat)
    requires width > 0
    ensures n < width && (length + n) % width == 0
  {
    PaddingFits(length, width);
    if length % width == 0 then 0 else width - length % width
  }

  /**
   What `convertbits` computes, on bit strings: padded, the input's bits with fewer than `tobits` zeros after them;
   strict, the whole words in the input, provided what is left over is shorter than an input word and all zeros.
   */
  function ConvertBits(data: seq<int>, frombits: nat, tobits: nat, pad: bool): (r: Option<seq<nat>>)
    requires frombits > 0 && tobits > 0
    ensures r.Some? ==> InRange(data, frombits) && InRange(r.value, tobits)
  {
    if !InRange(data, frombits) then None
    else
      var bits := BitString(data, frombits);
      if pad then Some(WordsOf(bits + ZeroBits(Padding(|bits|, tobits)), tobits))
      else
        var rest := |bits| % tobits;
        WholePart(|bits|, tobits);
        if rest >= frombits || NumberOf(bits[|bits| - rest..]) != 0 then None
        else Some(WordsOf(bits[..|bits| - rest], tobits))
  }

  // ---- arithmetic ----

  lemma DivisibleAtLeast(n: nat, d: nat)
    requires d > 0 && n > 0 && n % d == 0
    ensures n >= d && (n - d) % d == 0
  {
    DivModUnique(n - d, d, n / d - 1, 0);
  }

  lemma PaddingFits(length: nat, width: nat)
    requires width > 0
    ensures length % width != 0 ==> (length + (width - length % width)) % width == 0
  {
    if length % width != 0 {
      DivModUnique(length + (width - length % width), width, length / width + 1, 0);
    }
  }

  lemma WholePart(n: nat, d: nat)
    requires d > 0
    ensures n % d <= n && (n - n % d) % d == 0
  {
    DivModUnique(n - n % d, d, n / d, 0);
  }

  // ---- bits and numbers ----

  lemma {:induction false} NumberOfBits(n: nat, width: nat)
    requires n < Pow(2, width)
    ensures NumberOf(BitsOf(n, width)) == n
  {
    if width > 0 {
      NumberOfBits(n / 2, width - 1);
      assert BitsOf(n, width)[..width - 1] == BitsOf(n / 2, width - 1);
    }
  }

  lemma {:induction false} BitsOfNumber(b: Bits)
    ensures BitsOf(NumberOf(b), |b|) == b
  {
    if b != [] {
      BitsOfNumber(b[..|b| - 1]);
      assert b == b[..|b| - 1] + [b[|b| - 1]];
    }
  }

  lemma {:induction false} ZeroBitsNumber(b: Bits)
    ensures NumberOf(b) == 0 <==> b == ZeroBits(|b|)
  {
    if b != [] {
      var n := |b| - 1;
      ZeroBitsNumber(b[..n]);
      assert ZeroBits(|b|)[..n] == ZeroBits(n);
      assert b == b[..n] + [b[n]];
    }
  }

  /** Shifting a word in below another one appends its bits. */
  lemma {:induction false} BitsOfJoin(high: nat, low: nat, h: nat, l: nat)
    requires low < Pow(2, l)
    ensures BitsOf(high * Pow(2, l) + low, h + l) == BitsOf(high, h) + BitsOf(low, l)
  {
    if l > 0 {
      var p := high * Pow(2, l - 1);
      assert high * Pow(2, l) == 2 * p by { Doubles(high, Pow(2, l - 1)); }
      HalfOf(p, low);
      BitsOfJoin(high, low / 2, h, l - 1);
    }
  }

  lemma Doubles(a: nat, b: nat)
    ensures a * (2 * b) == 2 * (a * b)
  {
  }

  lemma HalfOf(p: nat, low: nat)
    ensures (2 * p + low) / 2 == p + low / 2 && (2 * p + low) % 2 == low % 2
  {
  }

  /** Splitting a word's bits at `l` from the right. */
  lemma BitsOfSplit(n: nat, h: nat, l: nat)
    ensures BitsOf(n, h + l) == BitsOf(n / Pow(2, l), h) + BitsOf(n, l)
  {
    var p := Pow(2, l);
    var high, low := n / p, n % p;
    assert n == high * p + low;
    BitsOfJoin(high, low, h, l);
    BitsOfMask(n, l, l);
  }

  /** A mask at least as wide as the bits still wanted drops none of them. */
  lemma {:induction false} BitsOfMask(n: nat, mask: nat, width: nat)
    requires width <= mask
    ensures BitsOf(n % Pow(2, mask), width) == BitsOf(n, width)
  {
    if width > 0 {
      HalfMod(n, Pow(2, mask - 1));
      BitsOfMask(n / 2, mask - 1, width - 1);
    }
  }

  lemma HalfMod(n: nat, p: nat)
    requires p > 0
    ensures (n % (2 * p)) / 2 == (n / 2) % p && (n % (2 * p)) % 2 == n % 2
  {
    var q, r := n / (2 * p), n % (2 * p);
    assert n == 2 * (q * p) + r;
    DivModUnique(n / 2, p, q, r / 2);
  }

  lemma WordsOfNext(front: Bits, last: Bits, width: nat)
    requires width > 0 && |front| % width == 0 && |last| == width
    ensures |front + last| % width == 0
    ensures WordsOf(front + last, width) == WordsOf(front, width) + [NumberOf(last)]
  {
    DivModUnique(|front + last|, width, |front| / width + 1, 0);
    assert (front + last)[..|front|] == front && (front + last)[|front|..] == last;
  }

  lemma OneMoreWord(front: seq<nat>, word: nat, width: nat)
    requires width > 0 && word < Pow(2, width)
    requires |BitString(front, width)| % width == 0 && WordsOf(BitString(front, width), width) == front
    ensures |BitString(front + [word], width)| % width == 0
    ensures WordsOf(BitString(front + [word], width), width) == front + [word]
  {
    BitStringNext(front, word, width);
    WordsOfNext(BitString(front, width), BitsOf(word, width), width);
    NumberOfBits(word, width);
  }

  lemma {:induction false} WordsOfBitString(words: seq<nat>, width: nat)
    requires width > 0 && InRange(words, width)
    ensures |BitString(words, width)| % width == 0
    ensures WordsOf(BitString(words, width), width) == words
  {
    if words != [] {
      var n := |words| - 1;
      WordsOfBitString(words[..n], width);
      OneMoreWord(words[..n], words[n], width);
      LastOnTop(words);
    }
  }

  lemma {:induction false} BitStringLength(words: seq<nat>, width: nat)
    ensures |BitString(words, width)| == |words| * width
  {
    if words != [] {
      BitStringLength(words[..|words| - 1], width);
      NextMultiple(|words|, width);
    }
  }

  lemma NextMultiple(n: nat, d: nat)
    requires n > 0
    ensures (n - 1) * d + d == n * d
  {
  }

  lemma BitStringNext(words: seq<nat>, word: nat, width: nat)
    ensures BitString(words + [word], width) == BitString(words, width) + BitsOf(word, width)
  {
    assert (words + [word])[..|words|] == words;
  }

  /** The number some words are the digits of, most significant first. */
  function ValueOf(words: seq<nat>, base: nat): nat {
    if words == [] then 0 else base * ValueOf(words[..|words| - 1], base) + words[|words| - 1]
  }

  /** A bit string is the number its words are the digits of, whatever the width. */
  lemma {:induction false} BitStringIsNumber(words: seq<nat>, width: nat)
    requires InRange(words, width)
    ensures NumberOf(BitString(words, width)) == ValueOf(words, Pow(2, width))
  {
    if words != [] {
      var front := words[..|words| - 1];
      BitStringIsNumber(front, width);
      NumberNext(front, words[|words| - 1], width);
      LastOnTop(words);
    }
  }

  lemma NumberNext(front: seq<nat>, last: nat, width: nat)
    requires last < Pow(2, width) && NumberOf(BitString(front, width)) == ValueOf(front, Pow(2, width))
    ensures NumberOf(BitString(front + [last], width)) == ValueOf(front + [last], Pow(2, width))
  {
    BitStringNext(front, last, width);
    NumberOfBits(last, width);
    JoinedNumber(BitString(front, width), BitsOf(last, width), Pow(2, width), last);
    ValueNext(front, last, Pow(2, width));
  }

  lemma JoinedNumber(a: Bits, b: Bits, p: nat, n: nat)
    requires p == Pow(2, |b|) && NumberOf(b) == n
    ensures NumberOf(a + b) == p * NumberOf(a) + n
  {
    NumberOfJoin(a, b);
  }

  lemma ValueNext(front: seq<nat>, last: nat, base: nat)
    ensures ValueOf(front + [last], base) == base * ValueOf(front, base) + last
  {
    assert (front + [last])[..|front|] == front;
  }

  lemma {:induction false} NumberOfJoin(a: Bits, b: Bits)
    ensures NumberOf(a + b) == NumberOf(a) * Pow(2, |b|) + NumberOf(b)
  {
    if b == [] {
      assert a + b == a;
    } else {
      var front := b[..|b| - 1];
      assert (a + b)[..|a| + |front|] == a + front;
      NumberOfJoin(a, front);
      Doubles(NumberOf(a), Pow(2, |front|));
    }
  }

  /** Words of two widths with as many bits in all regroup into each other exactly when they spell one number. */
  lemma SameNumberSameBits(a: seq<nat>, narrow: nat, b: seq<nat>, wide: nat)
    requires InRange(a, narrow) && InRange(b, wide) && |a| * narrow == |b| * wide
    ensures BitString(a, narrow) == BitString(b, wide) <==> ValueOf(a, Pow(2, narrow)) == ValueOf(b, Pow(2, wide))
  {
    BitStringIsNumber(a, narrow);
    BitStringIsNumber(b, wide);
    BitStringLength(a, narrow);
    BitStringLength(b, wide);
    BitsOfNumber(BitString(a, narrow));
    BitsOfNumber(BitString(b, wide));
  }

  lemma {:induction false} BitStringJoin(a: seq<nat>, b: seq<nat>, width: nat)
    ensures BitString(a + b, width) == BitString(a, width) + BitString(b, width)
  {
    if b == [] {
      assert a + b == a;
    } else {
      var front := b[..|b| - 1];
      BitStringJoin(a, front, width);
      JoinNext(a, front, b[|b| - 1], width);
      LastOnTop(b);
    }
  }

  lemma JoinNext(a: seq<nat>, front: seq<nat>, last: nat, width: nat)
    requires BitString(a + front, width) == BitString(a, width) + BitString(front, width)
    ensures BitString(a + (front + [last]), width) == BitString(a, width) + BitString(front + [last], width)
  {
    BitStringNext(a + front, last, width);
    BitStringNext(front, last, width);
    Associates(a, front, [last]);
    Associates(BitString(a, width), BitString(front, width), BitsOf(last, width));
  }

  /** Where no bit is left over, strict regrouping to words of the same bits gives those words. */
  lemma RegroupsWhole(data: seq<nat>, frombits: nat, tobits: nat, out: seq<nat>)
    requires frombits > 0 && tobits > 0 && InRange(data, frombits) && InRange(out, tobits)
    requires BitString(data, frombits) == BitString(out, tobits)
    ensures ConvertBits(data, frombits, tobits, false) == Some(out)
  {
    WordsOfBitString(out, tobits);
    NothingLeft(data, frombits, tobits, BitString(data, frombits));
  }

  lemma NothingLeft(data: seq<nat>, frombits: nat, tobits: nat, bits: Bits)
    requires frombits > 0 && tobits > 0 && InRange(data, frombits)
    requires bits == BitString(data, frombits) && |bits| % tobits == 0
    ensures ConvertBits(data, frombits, tobits, false) == Some(WordsOf(bits, tobits))
  {
    assert bits[..|bits|] == bits && bits[|bits| - 0..] == [];
  }

  lemma OneMoreCut(front: Bits, last: Bits, width: nat)
    requires width > 0 && |last| == width && |front| % width == 0 && BitString(WordsOf(front, width), width) == front
    ensures |front + last| % width == 0 && BitString(WordsOf(front + last, width), width) == front + last
  {
    WordsOfNext(front, last, width);
    BitStringNext(WordsOf(front, width), NumberOf(last), width);
    BitsOfNumber(last);
  }

  lemma {:induction false} BitStringOfWords(b: Bits, width: nat)
    requires width > 0 && |b| % width == 0
    ensures BitString(WordsOf(b, width), width) == b
  {
    if b != [] {
      DivisibleAtLeast(|b|, width);
      var cut := |b| - width;
      BitStringOfWords(b[..cut], width);
      OneMoreCut(b[..cut], b[cut..], width);
      CutJoins(b, cut);
    }
  }

  lemma CutJoins<T>(s: seq<T>, cut: nat)
    requires cut <= |s|
    ensures s == s[..cut] + s[cut..]
  {
  }

  // ---- the loop ----

  /** A word taken into the accumulator, which is kept to `mask` bits. */
  function Absorbed(acc: nat, value: nat, frombits: nat, mask: nat): nat {
    (acc * Pow(2, frombits) + value) % Pow(2, mask)
  }

  function ShiftedDown(n: nat, places: nat): nat {
    n / Pow(2, places)
  }

  /** The bits left waiting, shifted up to a whole word. */
  function ShiftedUp(acc: nat, bits: nat, tobits: nat): nat
    requires bits < tobits
  {
    (acc * Pow(2, tobits - bits)) % Pow(2, tobits)
  }

  lemma OutOfRange(data: seq<int>, frombits: nat, tobits: nat, pad: bool)
    requires frombits > 0 && tobits > 0 && !InRange(data, frombits)
    ensures ConvertBits(data, frombits, tobits, pad) == None
  {
  }

  /** `convertbits` as written: an accumulator kept to `frombits + tobits - 1` bits. */
  method Convert(data: seq<int>, frombits: nat, tobits: nat, pad: bool) returns (r: Option<seq<nat>>)
    requires frombits > 0 && tobits > 0
    ensures r == ConvertBits(data, frombits, tobits, pad)
  {
    var acc: nat, bits: nat, ret: seq<nat> := 0, 0, [];
    ghost var read: seq<nat> := [];
    for k := 0 to |data|
      invariant read == data[..k] && Carried(read, ret, acc, bits, frombits, tobits) && bits < tobits
    {
      var value := data[k];
      ValueChecks(data, k, frombits);
      if value < 0 || ShiftedDown(value, frombits) != 0 {
        OutOfRange(data, frombits, tobits, pad);
        return None;
      }
      AbsorbWord(read, value, ret, acc, bits, frombits, tobits);
      acc := Absorbed(acc, value, frombits, frombits + tobits - 1);
      read := read + [value];
      ret, bits := EmitWords(read, ret, acc, bits + frombits, frombits, tobits);
    }
    assert read == data;
    LeftOver(data, ret, acc, bits, frombits, tobits);
    var last := ShiftedUp(acc, bits, tobits);
    if pad {
      if bits > 0 {
        ret := ret + [last];
      }
    } else if bits >= frombits || last != 0 {
      return None;
    }
    return Some(ret);
  }

  /** What has been read is what has been written out and, after it, the bits still waiting in the accumulator. */
  ghost predicate Carried(read: seq<int>, ret: seq<nat>, acc: nat, bits: nat, frombits: nat, tobits: nat) {
    && InRange(read, frombits) && InRange(ret, tobits)
    && BitString(read, frombits) == BitString(ret, tobits) + BitsOf(acc, bits)
  }

  /** The inner loop: whole words are taken off the top of the accumulator's waiting bits, and none is lost. */
  method EmitWords(ghost read: seq<nat>, ret: seq<nat>, acc: nat, bits: nat, ghost frombits: nat, tobits: nat)
    returns (out: seq<nat>, rest: nat)
    requires tobits > 0 && Carried(read, ret, acc, bits, frombits, tobits)
    ensures Carried(read, out, acc, rest, frombits, tobits) && rest < tobits
  {
    out, rest := ret, bits;
    while rest >= tobits
      invariant Carried(read, out, acc, rest, frombits, tobits)
    {
      rest := rest - tobits;
      EmitWord(out, acc, rest, tobits);
      var word := (acc / Pow(2, rest)) % Pow(2, tobits);
      out := out + [word];
    }
  }

  /** The two tests on a value are exactly that it does not fit its width. */
  lemma ValueChecks(data: seq<int>, k: nat, frombits: nat)
    requires k < |data| && InRange(data[..k], frombits)
    ensures data[k] < 0 || ShiftedDown(data[k], frombits) != 0 ==> !InRange(data, frombits)
    ensures data[k] >= 0 && ShiftedDown(data[k], frombits) == 0 ==> data[k] < Pow(2, frombits)
    ensures data[..k + 1] == data[..k] + [data[k]]
  {
    var value, p := data[k], Pow(2, frombits);
    if 0 <= value < p {
      DivModUnique(value, p, 0, value);
    } else if value >= p {
      QuotientPositive(value, p);
    }
  }

  lemma QuotientPositive(n: nat, p: nat)
    requires 0 < p <= n
    ensures n / p != 0
  {
  }

  /** The mask leaves every bit not yet emitted. */
  lemma AbsorbWord(read: seq<nat>, value: nat, ret: seq<nat>, acc: nat, bits: nat, frombits: nat, tobits: nat)
    requires frombits > 0 && bits < tobits && value < Pow(2, frombits)
    requires Carried(read, ret, acc, bits, frombits, tobits)
    ensures Carried(read + [value], ret, Absorbed(acc, value, frombits, frombits + tobits - 1), bits + frombits,
                    frombits, tobits)
  {
    BitStringNext(read, value, frombits);
    MaskKeeps(acc, value, bits, frombits, frombits + tobits - 1);
    Associates(BitString(ret, tobits), BitsOf(acc, bits), BitsOf(value, frombits));
  }

  lemma MaskKeeps(acc: nat, value: nat, bits: nat, frombits: nat, mask: nat)
    requires value < Pow(2, frombits) && bits + frombits <= mask
    ensures BitsOf(Absorbed(acc, value, frombits, mask), bits + frombits) ==
            BitsOf(acc, bits) + BitsOf(value, frombits)
  {
    BitsOfJoin(acc, value, bits, frombits);
    BitsOfMask(acc * Pow(2, frombits) + value, mask, bits + frombits);
  }

  lemma EmitWord(ret: seq<nat>, acc: nat, rest: nat, tobits: nat)
    requires tobits > 0 && InRange(ret, tobits)
    ensures var word := (acc / Pow(2, rest)) % Pow(2, tobits);
      && InRange(ret + [word], tobits)
      && BitString(ret + [word], tobits) + BitsOf(acc, rest) == BitString(ret, tobits) + BitsOf(acc, tobits + rest)
  {
    var word := (acc / Pow(2, rest)) % Pow(2, tobits);
    BitsOfSplit(acc, tobits, rest);
    BitsOfMask(acc / Pow(2, rest), tobits, tobits);
    BitStringNext(ret, word, tobits);
    Associates(BitString(ret, tobits), BitsOf(word, tobits), BitsOf(acc, rest));
  }

  lemma {:induction false} BitsOfZero(n: nat)
    ensures BitsOf(0, n) == ZeroBits(n)
  {
    if n > 0 {
      BitsOfZero(n - 1);
    }
  }

  lemma AllZeros(b: Bits, pad: nat)
    ensures b + ZeroBits(pad) == ZeroBits(|b| + pad) <==> b == ZeroBits(|b|)
  {
    if b + ZeroBits(pad) == ZeroBits(|b| + pad) {
      assert b == (b + ZeroBits(pad))[..|b|];
    }
  }

  /** The last word, shifted up: the bits left over, then zeros. */
  lemma LastWord(acc: nat, bits: nat, tobits: nat)
    requires bits < tobits
    ensures var last := ShiftedUp(acc, bits, tobits);
      BitsOf(last, tobits) == BitsOf(acc, bits) + ZeroBits(tobits - bits)
    ensures ShiftedUp(acc, bits, tobits) == 0 <==> NumberOf(BitsOf(acc, bits)) == 0
  {
    var pad := tobits - bits;
    var last := ShiftedUp(acc, bits, tobits);
    BitsOfMask(acc * Pow(2, pad), tobits, tobits);
    BitsOfJoin(acc, 0, bits, pad);
    BitsOfZero(pad);
    NumberOfBits(last, tobits);
    ZeroBitsNumber(BitsOf(last, tobits));
    ZeroBitsNumber(BitsOf(acc, bits));
    AllZeros(BitsOf(acc, bits), pad);
  }

  lemma LeftOver(data: seq<nat>, ret: seq<nat>, acc: nat, bits: nat, frombits: nat, tobits: nat)
    requires frombits > 0 && bits < tobits && Carried(data, ret, acc, bits, frombits, tobits)
    ensures var last := ShiftedUp(acc, bits, tobits);
      && ConvertBits(data, frombits, tobits, true) == Some(if bits > 0 then ret + [last] else ret)
      && ConvertBits(data, frombits, tobits, false) == if bits >= frombits || last != 0 then None else Some(ret)
  {
    LastWord(acc, bits, tobits);
    PadLast(ret, ShiftedUp(acc, bits, tobits), BitsOf(acc, bits), tobits);
    DropRest(data, ret, BitsOf(acc, bits), frombits, tobits);
  }

  lemma DropRest(data: seq<nat>, ret: seq<nat>, rest: Bits, frombits: nat, tobits: nat)
    requires frombits > 0 && |rest| < tobits && InRange(data, frombits) && InRange(ret, tobits)
    requires BitString(data, frombits) == BitString(ret, tobits) + rest
    ensures ConvertBits(data, frombits, tobits, false) ==
            if |rest| >= frombits || NumberOf(rest) != 0 then None else Some(ret)
  {
    var all, kept := BitString(data, frombits), BitString(ret, tobits);
    LengthSplit(all, ret, tobits, |rest|);
    assert all[..|all| - |rest|] == kept && all[|all| - |rest|..] == rest;
    WordsOfBitString(ret, tobits);
  }

  lemma LengthSplit(all: Bits, ret: seq<nat>, tobits: nat, bits: nat)
    requires bits < tobits && |all| == |BitString(ret, tobits)| + bits
    ensures |all| % tobits == bits
  {
    BitStringLength(ret, tobits);
    DivModUnique(|all|, tobits, |ret|, bits);
  }

  lemma PadLast(ret: seq<nat>, last: nat, rest: Bits, tobits: nat)
    requires |rest| < tobits && InRange(ret, tobits) && last < Pow(2, tobits)
    requires BitsOf(last, tobits) == rest + ZeroBits(tobits - |rest|)
    ensures var all := BitString(ret, tobits) + rest;
      var padded := all + ZeroBits(Padding(|all|, tobits));
      |padded| % tobits == 0 && WordsOf(padded, tobits) == if |rest| > 0 then ret + [last] else ret
  {
    var kept := BitString(ret, tobits);
    LengthSplit(kept + rest, ret, tobits, |rest|);
    if |rest| > 0 {
      BitStringNext(ret, last, tobits);
      Associates(kept, rest, ZeroBits(tobits - |rest|));
      WordsOfBitString(ret + [last], tobits);
    } else {
      assert kept + rest + ZeroBits(0) == kept;
      WordsOfBitString(ret, tobits);
    }
  }

  // ---- what regrouping keeps ----

  /** Padded output is the input's bit string and fewer than `tobits` zeros; it fails only on a word out of range. */
  lemma PaddedKeepsBits(data: seq<int>, frombits: nat, tobits: nat)
    requires frombits > 0 && tobits > 0
    ensures ConvertBits(data, frombits, tobits, true).Some? <==> InRange(data, frombits)
    ensures InRange(data, frombits) ==>
              var out := ConvertBits(data, frombits, tobits, true).value;
              && InRange(out, tobits)
              && BitString(out, tobits) ==
                 BitString(data, frombits) + ZeroBits(Padding(|BitString(data, frombits)|, tobits))
  {
    if InRange(data, frombits) {
      var bits := BitString(data, frombits);
      BitStringOfWords(bits + ZeroBits(Padding(|bits|, tobits)), tobits);
    }
  }

  /** Strict output is the input's bit string, short of fewer than `frombits` zeros at its end. */
  lemma StrictKeepsBits(data: seq<int>, frombits: nat, tobits: nat, out: seq<nat>)
    requires frombits > 0 && tobits > 0 && ConvertBits(data, frombits, tobits, false) == Some(out)
    ensures InRange(data, frombits) && InRange(out, tobits)
    ensures var rest := |BitString(data, frombits)| % tobits;
      rest < frombits && BitString(data, frombits) == BitString(out, tobits) + ZeroBits(rest)
  {
    StrictParts(data, frombits, tobits, out);
    var bits := BitString(data, frombits);
    CutZeros(bits, |bits| % tobits, tobits, out);
  }

  lemma StrictParts(data: seq<int>, frombits: nat, tobits: nat, out: seq<nat>)
    requires frombits > 0 && tobits > 0 && ConvertBits(data, frombits, tobits, false) == Some(out)
    ensures InRange(data, frombits)
    ensures var bits := BitString(data, frombits);
      var rest := |bits| % tobits;
      && rest < frombits && rest <= |bits| && (|bits| - rest) % tobits == 0
      && NumberOf(bits[|bits| - rest..]) == 0 && out == WordsOf(bits[..|bits| - rest], tobits)
  {
    WholePart(|BitString(data, frombits)|, tobits);
  }

  lemma CutZeros(bits: Bits, rest: nat, tobits: nat, out: seq<nat>)
    requires tobits > 0 && rest <= |bits| && (|bits| - rest) % tobits == 0
    requires NumberOf(bits[|bits| - rest..]) == 0 && out == WordsOf(bits[..|bits| - rest], tobits)
    ensures bits == BitString(out, tobits) + ZeroBits(rest)
  {
    var cut := |bits| - rest;
    BitStringOfWords(bits[..cut], tobits);
    ZeroBitsNumber(bits[cut..]);
    CutJoins(bits, cut);
  }

  lemma BitStringInjective(a: seq<nat>, b: seq<nat>, width: nat)
    requires width > 0 && InRange(a, width) && InRange(b, width)
    requires BitString(a, width) == BitString(b, width)
    ensures a == b
  {
    WordsOfBitString(a, width);
    WordsOfBitString(b, width);
  }

  /** Regrouping to words no wider and back returns the data. */
  lemma NarrowAndBack(data: seq<nat>, wide: nat, narrow: nat)
    requires 0 < narrow <= wide && InRange(data, wide)
    ensures var out := ConvertBits(data, wide, narrow, true);
      out.Some? && InRange(out.value, narrow) && ConvertBits(out.value, narrow, wide, false) == Some(data)
  {
    PaddedKeepsBits(data, wide, narrow);
    var out := ConvertBits(data, wide, narrow, true).value;
    var pad := Padding(|BitString(data, wide)|, narrow);
    ZeroBitsNumber(ZeroBits(pad));
    DropRest(out, data, ZeroBits(pad), narrow, wide);
  }

  /** Whatever the strict side accepts, regrouping back returns exactly it. */
  lemma WidenAndBack(data: seq<int>, narrow: nat, wide: nat)
    requires 0 < narrow && 0 < wide && ConvertBits(data, narrow, wide, false).Some?
    ensures ConvertBits(ConvertBits(data, narrow, wide, false).value, wide, narrow, true) == Some(data)
  {
    var out := ConvertBits(data, narrow, wide, false).value;
    StrictKeepsBits(data, narrow, wide, out);
    PaddedKeepsBits(out, wide, narrow);
    var back := ConvertBits(out, wide, narrow, true).value;
    var bits := BitString(out, wide);
    var rest := |BitString(data, narrow)| % wide;
    BitStringLength(data, narrow);
    SamePadding(|bits|, narrow, |data|, rest);
    BitStringInjective(data, back, narrow);
  }

  lemma SamePadding(length: nat, width: nat, words: nat, rest: nat)
    requires width > 0 && rest < width && length + rest == words * width
    ensures Padding(length, width) == rest
  {
    if rest == 0 {
      DivModUnique(length, width, words, 0);
    } else {
      DivModUnique(length, width, words - 1, width - rest);
    }
  }
}
