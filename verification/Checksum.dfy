/**
 The BIP-173 checksum, sections "Bech32" of BIP-173 and "Bech32m" of BIP-350: a 30-bit shift register over GF(2). The
 two encodings differ only in the constant the register must end in.
 */
module Checksum {
  import opened LinearRegister
  import opened Prelude

  type Word = bv30

  const BECH32: Word := 1
  const BECH32M: Word := 0x2BC830A3

  function Xor(a: Word, b: Word): Word {
    a ^ b
  }

  const WORDS: Words<Word> := Words(0, Xor)

  const GENERATOR: seq<Word> := [0x3B6A57B2, 0x26508E6D, 0x1EA119FA, 0x3D4233DD, 0x2A1462B3]

  /** All ones when the low bit of `x` is set, else zero. */
  function Smear(x: Word): Word {
    var a := x & 1;
    var b := a ^ (a << 1);
    var c := b ^ (b << 2);
    var d := c ^ (c << 4);
    var e := d ^ (d << 8);
    e ^ (e << 16)
  }

  // The five taps: each bit shifted out of the top mixes its own generator back in.

  function Tap0(top: Word): Word { Smear(top) & 0x3B6A57B2 }

  function Tap1(top: Word): Word { Smear(top >> 1) & 0x26508E6D }

  function Tap2(top: Word): Word { Smear(top >> 2) & 0x1EA119FA }

  function Tap3(top: Word): Word { Smear(top >> 3) & 0x3D4233DD }

  function Tap4(top: Word): Word { Smear(top >> 4) & 0x2A1462B3 }

  const TAPS: seq<Word -> Word> := [Tap0, Tap1, Tap2, Tap3, Tap4]

  function Feedback(top: Word): Word {
    SumOf(WORDS, TAPS, top)
  }

  function Shifted(chk: Word): Word {
    (chk & 0x1FFFFFF) << 5
  }

  function TopBits(chk: Word): Word {
    chk >> 25
  }

  function Folded(chk: Word): Word {
    Feedback(TopBits(chk))
  }

  function Advance(chk: Word): Word {
    Xor(Shifted(chk), Folded(chk))
  }

  const REGISTER: Register<Word> := Register(WORDS, Advance)

  /** The checksum register after `values`, BIP-173's `bech32_polymod`. */
  function PolymodOf(values: seq<Word>): Word {
    Run(REGISTER, 1, values)
  }

  method Polymod(values: seq<Word>) returns (chk: Word)
    ensures chk == PolymodOf(values)
  {
    chk := 1;
    for k := 0 to |values|
      invariant chk == PolymodOf(values[..k])
    {
      assert values[..k + 1][..k] == values[..k];
      var top := chk >> 25;
      XorSwaps(Shifted(chk), values[k], Folded(chk));
      chk := MixTaps(((chk & 0x1FFFFFF) << 5) ^ values[k], top);
    }
    assert values[..|values|] == values;
  }

  /** The inner loop over the generators. */
  method MixTaps(chk: Word, top: Word) returns (mixed: Word)
    ensures mixed == Xor(chk, Feedback(top))
  {
    mixed := chk;
    ghost var mixedIn: Word := 0;
    for i := 0 to 5
      invariant mixed == Xor(chk, mixedIn)
      invariant mixedIn == SumOf(WORDS, TAPS[..i], top)
    {
      var tap := SelectTap(top, i);
      SumOfNext(WORDS, TAPS, i, top);
      XorAssociates(chk, mixedIn, tap);
      mixed, mixedIn := mixed ^ tap, Xor(mixedIn, tap);
    }
    assert TAPS[..5] == TAPS;
  }

  method SelectTap(top: Word, i: nat) returns (tap: Word)
    requires i < 5
    ensures tap == TAPS[i](top)
  {
    TapSelects(top, i);
    tap := if (top >> i) & 1 == 1 then GENERATOR[i] else 0;
  }

  /** The conditional in the inner loop is the `i`th tap. */
  lemma TapSelects(top: Word, i: nat)
    requires i < 5
    ensures (if (top >> i) & 1 == 1 then GENERATOR[i] else 0) == TAPS[i](top)
  {
    Selects(top, GENERATOR[0]);
    Selects(top >> 1, GENERATOR[1]);
    Selects(top >> 2, GENERATOR[2]);
    Selects(top >> 3, GENERATOR[3]);
    Selects(top >> 4, GENERATOR[4]);
  }

  lemma Selects(bit: Word, generator: Word)
    ensures (if bit & 1 == 1 then generator else 0) == Smear(bit) & generator
  {
    if bit & 1 == 1 {
      assert Smear(bit) == 0x3FFFFFFF;
    } else {
      assert bit & 1 == 0;
    }
  }

  lemma XorAssociates(a: Word, b: Word, c: Word)
    ensures Xor(Xor(a, b), c) == Xor(a, Xor(b, c))
  {
  }

  lemma XorCommutes(a: Word, b: Word)
    ensures Xor(a, b) == Xor(b, a)
  {
  }

  lemma XorSwaps(a: Word, b: Word, c: Word)
    ensures Xor(Xor(a, b), c) == Xor(Xor(a, c), b)
  {
    XorAssociates(a, b, c);
    XorCommutes(b, c);
    XorAssociates(a, c, b);
  }

  // ---- the register is linear and loses nothing ----

  lemma XorInterchanges(a: Word, b: Word, c: Word, d: Word)
    ensures Xor(Xor(a, b), Xor(c, d)) == Xor(Xor(a, c), Xor(b, d))
  {
    XorAssociates(Xor(a, b), c, d);
    XorSwaps(a, b, c);
    XorAssociates(Xor(a, c), b, d);
  }

  lemma WordInterchanges(a: Word, b: Word, c: Word, d: Word)
    ensures Interchanges(WORDS, a, b, c, d)
  {
    XorInterchanges(a, b, c, d);
  }

  lemma XorCancels(a: Word)
    ensures Xor(a, a) == 0 && Xor(a, 0) == a
  {
  }

  lemma WordCancels(a: Word, b: Word)
    ensures Cancels(WORDS, a, b)
  {
    XorAssociates(a, b, b);
    XorCommutes(0, b);
    XorCancels(a);
    XorCancels(b);
  }

  lemma WordXorLaws()
    ensures XorLaws(WORDS)
  {
    forall a, b, c, d ensures Interchanges(WORDS, a, b, c, d) { WordInterchanges(a, b, c, d); }
    forall a, b ensures Cancels(WORDS, a, b) { WordCancels(a, b); }
  }

  lemma TapAdditive(a: Word, b: Word, i: nat)
    requires i < 5
    ensures Additive(WORDS, TAPS[i], a, b)
  {
    if i == 0 {
      assert TAPS[i] == Tap0;
      assert Tap0(Xor(a, b)) == Xor(Tap0(a), Tap0(b));
    } else if i == 1 {
      assert Tap1(Xor(a, b)) == Xor(Tap1(a), Tap1(b));
    } else if i == 2 {
      assert Tap2(Xor(a, b)) == Xor(Tap2(a), Tap2(b));
    } else if i == 3 {
      assert Tap3(Xor(a, b)) == Xor(Tap3(a), Tap3(b));
    } else {
      assert Tap4(Xor(a, b)) == Xor(Tap4(a), Tap4(b));
    }
  }

  lemma FeedbackAdditive()
    ensures IsAdditive(WORDS, Feedback)
  {
    WordXorLaws();
    forall i | 0 <= i < |TAPS|
      ensures IsAdditive(WORDS, TAPS[i])
    {
      forall a, b ensures Additive(WORDS, TAPS[i], a, b) { TapAdditive(a, b, i); }
    }
    forall a, b ensures Additive(WORDS, Feedback, a, b) { SumOfAdditive(WORDS, TAPS, a, b); }
  }

  lemma ShiftedAdditive()
    ensures IsAdditive(WORDS, Shifted) && IsAdditive(WORDS, TopBits)
  {
    forall a, b ensures Additive(WORDS, Shifted, a, b) {}
    forall a, b ensures Additive(WORDS, TopBits, a, b) {}
  }

  lemma AdvanceKernel(chk: Word)
    requires Advance(chk) == 0
    ensures chk == 0
  {
    FeedbackTaps(TopBits(chk));
  }

  lemma FeedbackTaps(top: Word)
    ensures Feedback(top) == Xor(Xor(Xor(Xor(Tap0(top), Tap1(top)), Tap2(top)), Tap3(top)), Tap4(top))
  {
    assert TAPS[..4] == [Tap0, Tap1, Tap2, Tap3] && TAPS[..4][..3] == [Tap0, Tap1, Tap2];
    SumOfNext(WORDS, TAPS, 4, top);
    SumOfNext(WORDS, TAPS, 3, top);
    SumOfNext(WORDS, TAPS, 2, top);
    SumOfNext(WORDS, TAPS, 1, top);
    SumOfNext(WORDS, TAPS, 0, top);
    assert TAPS[..5] == TAPS;
  }

  lemma RegisterLossless()
    ensures Lossless(REGISTER)
  {
    WordXorLaws();
    FeedbackAdditive();
    ShiftedAdditive();
    ComposedAdditive(WORDS, Feedback, TopBits, Folded);
    SumAdditive(WORDS, Shifted, Folded, Advance);
    forall chk | Advance(chk) == 0 ensures chk == 0 { AdvanceKernel(chk); }
  }

  // ---- six symbols fill the register exactly ----

  /** Five-bit symbols, the values a data part is made of. */
  ghost predicate Symbols(values: seq<Word>) {
    forall i :: 0 <= i < |values| ==> values[i] < 32
  }

  function ShiftLeft(chk: Word): Word {
    chk << 5
  }

  function HighPart(word: Word): Word {
    word >> 5
  }

  function LowSymbol(word: Word): Word {
    word & 31
  }

  predicate IsSymbol(word: Word) {
    word < 32
  }

  /** The low five bits of each of `k` symbols. */
  function Room(k: nat): Word {
    if k == 0 then 0 else (Room(k - 1) << 5) | 31
  }

  predicate Fits(k: nat, chk: Word) {
    chk & Room(k) == chk
  }

  predicate TopClear(chk: Word) {
    chk & 0x1FFFFFF == chk
  }

  lemma RoomSizes()
    ensures Room(0) == 0 && Room(1) == 0x1F && Room(2) == 0x3FF && Room(3) == 0x7FFF
    ensures Room(4) == 0xFFFFF && Room(5) == 0x1FFFFFF && Room(6) == 0x3FFFFFFF
  {
  }

  lemma FitsClear(chk: Word, k: nat)
    requires k <= 5 && Fits(k, chk)
    ensures TopClear(chk)
  {
    RoomSizes();
    MaskWiden(chk, Room(k));
  }

  lemma MaskWiden(chk: Word, room: Word)
    requires chk & room == chk && TopClear(room)
    ensures TopClear(chk)
  {
  }

  /** With its top five bits clear the register only shifts. */
  lemma AdvanceShifts(chk: Word)
    requires TopClear(chk)
    ensures Advance(chk) == chk << 5
  {
    FeedbackTaps(TopBits(chk));
    assert TopBits(chk) == 0;
    assert Feedback(0) == 0;
    assert Shifted(chk) == chk << 5;
  }

  lemma ShiftIn(chk: Word, shifted: Word, symbol: Word, room: Word)
    requires chk & room == chk && symbol < 32 && shifted == chk << 5
    ensures Xor(shifted, symbol) & ((room << 5) | 31) == Xor(shifted, symbol)
  {
    assert symbol & 31 == symbol;
  }

  lemma SymbolFits(chk: Word, symbol: Word, k: nat)
    requires Fits(k, chk) && IsSymbol(symbol)
    ensures Fits(k + 1, Xor(ShiftLeft(chk), symbol))
  {
    ShiftIn(chk, ShiftLeft(chk), symbol, Room(k));
  }

  lemma SymbolShows(chk: Word, symbol: Word)
    requires TopClear(chk) && IsSymbol(symbol) && Xor(ShiftLeft(chk), symbol) == 0
    ensures chk == 0 && symbol == 0
  {
  }

  lemma SymbolEnters(chk: Word, symbol: Word, k: nat)
    requires k < 6 && Fits(k, chk) && IsSymbol(symbol)
    ensures Enters(WORDS, TopClear, ShiftLeft, Fits, chk, symbol, k)
  {
    FitsClear(chk, k);
    SymbolFits(chk, symbol, k);
    if Xor(ShiftLeft(chk), symbol) == 0 {
      SymbolShows(chk, symbol);
    }
  }

  lemma MaskHigh(word: Word, room: Word)
    requires word & ((room << 5) | 31) == word
    ensures (word >> 5) & room == word >> 5
  {
  }

  lemma SplitJoin(word: Word, advanced: Word)
    requires advanced == (word >> 5) << 5
    ensures TopClear(word >> 5) && Xor(advanced, word & 31) == word
  {
  }

  lemma SymbolLeaves(word: Word, k: nat)
    requires k < 6 && Fits(k + 1, word)
    ensures Splits(WORDS, TopClear, ShiftLeft, Fits, HighPart, LowSymbol, word, k)
  {
    MaskHigh(word, Room(k));
    SplitJoin(word, ShiftLeft(word >> 5));
  }

  lemma AllShiftWhenClear()
    ensures ShiftsWhenClear(REGISTER, TopClear, ShiftLeft)
  {
    forall chk | TopClear(chk) ensures Advance(chk) == ShiftLeft(chk) { AdvanceShifts(chk); }
  }

  /** Up to six symbols never run from zero back to zero, unless they are all zero. */
  lemma SixSymbolsShow(d: seq<Word>)
    requires |d| <= 6 && Symbols(d)
    ensures Run(REGISTER, 0, d) == 0 ==> forall i :: 0 <= i < |d| ==> d[i] == 0
  {
    AllShiftWhenClear();
    forall k: nat, chk, symbol | k < 6 && Fits(k, chk) && IsSymbol(symbol)
      ensures Enters(WORDS, TopClear, ShiftLeft, Fits, chk, symbol, k)
    {
      SymbolEnters(chk, symbol, k);
    }
    assert Fits(0, 0);
    ShortRun(REGISTER, TopClear, ShiftLeft, Fits, IsSymbol, 6, d);
  }

  /** The register's contents as six symbols, most significant first. */
  function Unpack(word: Word): (d: seq<Word>)
    ensures |d| == 6
  {
    [(word >> 25) & 31, (word >> 20) & 31, (word >> 15) & 31, (word >> 10) & 31, (word >> 5) & 31, word & 31]
  }

  lemma UnpackSymbols(word: Word)
    ensures Symbols(Unpack(word))
  {
    assert (word >> 25) & 31 < 32 && (word >> 20) & 31 < 32 && (word >> 15) & 31 < 32;
    assert (word >> 10) & 31 < 32 && (word >> 5) & 31 < 32 && word & 31 < 32;
  }

  lemma UnpackDigits(word: Word)
    ensures Unpack(word) == Digits(HighPart, LowSymbol, word, 6)
  {
    ShiftsCompose(word);
    LongShiftsCompose(word);
    SixDigits(HighPart, LowSymbol, word, word >> 5, word >> 10, word >> 15, word >> 20, word >> 25);
  }

  lemma ShiftsCompose(word: Word)
    ensures word >> 10 == HighPart(word >> 5) && word >> 15 == HighPart(word >> 10)
  {
  }

  lemma LongShiftsCompose(word: Word)
    ensures word >> 20 == HighPart(word >> 15) && word >> 25 == HighPart(word >> 20)
  {
  }

  lemma UnpackRuns(word: Word)
    ensures Run(REGISTER, 0, Unpack(word)) == word
  {
    AllShiftWhenClear();
    forall k: nat, w | k < 6 && Fits(k + 1, w)
      ensures Splits(WORDS, TopClear, ShiftLeft, Fits, HighPart, LowSymbol, w, k)
    {
      SymbolLeaves(w, k);
    }
    assert Fits(6, word) by { RoomSizes(); }
    DigitsRun(REGISTER, TopClear, ShiftLeft, Fits, HighPart, LowSymbol, word, 6, 6);
    UnpackDigits(word);
  }

  // ---- the checksum ----

  function ZeroWords(n: nat): seq<Word> {
    Repeat(0, n)
  }

  /** BIP-173's `bech32_create_checksum` over already expanded values. */
  function CreateChecksum(values: seq<Word>, constant: Word): (d: seq<Word>)
    ensures |d| == 6
  {
    Unpack(Xor(PolymodOf(values + ZeroWords(6)), constant))
  }

  /** BIP-173's `bech32_verify_checksum` over already expanded values. */
  predicate VerifyChecksum(values: seq<Word>, constant: Word) {
    PolymodOf(values) == constant
  }

  /** Appending six symbols adds their packed word to what six zeros would have left. */
  lemma SuffixAdds(values: seq<Word>, suffix: seq<Word>)
    requires |suffix| == 6
    ensures PolymodOf(values + suffix) == Xor(PolymodOf(values + ZeroWords(6)), Run(REGISTER, 0, suffix))
  {
    RegisterLossless();
    RunAppend(REGISTER, 1, values, suffix);
    RunAppend(REGISTER, 1, values, ZeroWords(6));
    var s := PolymodOf(values);
    assert Cancels(WORDS, s, 0);
    RunLinear(REGISTER, s, 0, ZeroWords(6), suffix);
    forall i | 0 <= i < 6 ensures Xor(0, suffix[i]) == suffix[i] {}
    assert XorAll(REGISTER, ZeroWords(6), suffix) == suffix;
  }

  /** Exactly one six-symbol suffix verifies, the one the encoder builds. */
  lemma ChecksumExactlyOne(values: seq<Word>, suffix: seq<Word>, constant: Word)
    requires |suffix| == 6 && Symbols(suffix)
    ensures VerifyChecksum(values + suffix, constant) <==> suffix == CreateChecksum(values, constant)
    ensures Symbols(CreateChecksum(values, constant))
  {
    var made := CreateChecksum(values, constant);
    ChecksumVerifies(values, constant);
    if VerifyChecksum(values + suffix, constant) {
      WindowUnique(values, suffix, made, []);
      assert values + suffix + [] == values + suffix && values + made + [] == values + made;
    }
  }

  lemma ChecksumVerifies(values: seq<Word>, constant: Word)
    ensures Symbols(CreateChecksum(values, constant))
    ensures VerifyChecksum(values + CreateChecksum(values, constant), constant)
  {
    var base := PolymodOf(values + ZeroWords(6));
    UnpackSymbols(Xor(base, constant));
    UnpackRuns(Xor(base, constant));
    SuffixAdds(values, CreateChecksum(values, constant));
    XorBack(base, constant);
  }

  lemma XorBack(a: Word, b: Word)
    ensures Xor(a, Xor(a, b)) == b
  {
  }

  /** Two windows of at most six symbols that leave the register in the same state are the same window. */
  lemma WindowUnique(before: seq<Word>, v: seq<Word>, w: seq<Word>, after: seq<Word>)
    requires |v| == |w| <= 6 && Symbols(v) && Symbols(w)
    ensures PolymodOf(before + v + after) == PolymodOf(before + w + after) ==> v == w
  {
    if PolymodOf(before + v + after) == PolymodOf(before + w + after) {
      RegisterLossless();
      WindowShows(REGISTER, 1, before, v, w, after);
      var x := XorAll(REGISTER, v, w);
      forall i | 0 <= i < |x| ensures x[i] < 32 { SymbolXor(v[i], w[i]); }
      SixSymbolsShow(x);
      forall i | 0 <= i < |v| ensures v[i] == w[i] { assert Cancels(WORDS, v[i], w[i]); }
    }
  }

  lemma SymbolXor(a: Word, b: Word)
    requires a < 32 && b < 32
    ensures Xor(a, b) < 32
  {
  }

  /**
   Burst detection at every length: if a string verifies, changing symbols only inside six consecutive positions after
   its first `fixed` values gives one that does not.
   */
  lemma BurstDetected(values: seq<Word>, changed: seq<Word>, fixed: nat, at: nat, constant: Word)
    requires fixed <= at <= |values| == |changed|
    requires Symbols(values[fixed..]) && Symbols(changed[fixed..])
    requires forall i :: 0 <= i < |values| && !(at <= i < at + 6) ==> values[i] == changed[i]
    requires VerifyChecksum(values, constant)
    ensures VerifyChecksum(changed, constant) <==> changed == values
  {
    var end := if at + 6 <= |values| then at + 6 else |values|;
    var v, w := values[at..end], changed[at..end];
    forall i | 0 <= i < |v| ensures v[i] < 32 && w[i] < 32 {
      assert v[i] == values[fixed..][at - fixed + i] && w[i] == changed[fixed..][at - fixed + i];
    }
    assert values == values[..at] + v + values[end..];
    assert changed == values[..at] + w + values[end..];
    WindowUnique(values[..at], v, w, values[end..]);
  }

  // ---- the standards' own strings ----

  lemma Steps(values: seq<Word>, k: nat, chk: Word, next: Word)
    requires k < |values| && PolymodOf(values[..k]) == chk
    requires var top := TopBits(chk);
      next == Xor(Xor(Shifted(chk), Xor(Xor(Xor(Xor(Tap0(top), Tap1(top)), Tap2(top)), Tap3(top)), Tap4(top))),
                  values[k])
    ensures PolymodOf(values[..k + 1]) == next
  {
    FeedbackTaps(TopBits(chk));
    assert values[..k + 1][..k] == values[..k];
  }

  lemma KnownBech32Half(values: seq<Word>)
    requires values == [3, 0, 1, 10, 28, 25, 31, 20, 31]
    ensures PolymodOf(values[..5]) == 0x230055c
  {
    assert values[..0] == [];
    Steps(values, 0, 0x1, 0x23);
    Steps(values, 1, 0x23, 0x460);
    Steps(values, 2, 0x460, 0x8c01);
    Steps(values, 3, 0x8c01, 0x11802a);
    Steps(values, 4, 0x11802a, 0x230055c);
  }

  /** The register over BIP-173's `a12uel5l`, expanded prefix and symbols. */
  lemma KnownBech32(values: seq<Word>)
    requires values == [3, 0, 1, 10, 28, 25, 31, 20, 31]
    ensures VerifyChecksum(values, BECH32)
  {
    KnownBech32Half(values);
    Steps(values, 5, 0x230055c, 0x3d6afc2b);
    Steps(values, 6, 0x3d6afc2b, 0x2f84386);
    Steps(values, 7, 0x2f84386, 0x24622766);
    Steps(values, 8, 0x24622766, 0x1);
    assert values[..9] == values;
  }

  lemma KnownBech32mHalf(values: seq<Word>)
    requires values == [3, 0, 1, 31, 0, 9, 19, 17, 29]
    ensures PolymodOf(values[..5]) == 0x23007e0
  {
    assert values[..0] == [];
    Steps(values, 0, 0x1, 0x23);
    Steps(values, 1, 0x23, 0x460);
    Steps(values, 2, 0x460, 0x8c01);
    Steps(values, 3, 0x8c01, 0x11803f);
    Steps(values, 4, 0x11803f, 0x23007e0);
  }

  /** The register over BIP-350's `a1lqfn3a`, expanded prefix and symbols. */
  lemma KnownBech32m(values: seq<Word>)
    requires values == [3, 0, 1, 31, 0, 9, 19, 17, 29]
    ensures VerifyChecksum(values, BECH32M)
  {
    KnownBech32mHalf(values);
    Steps(values, 5, 0x23007e0, 0x3d6aabbb);
    Steps(values, 6, 0x3d6aabbb, 0x2f2b18a);
    Steps(values, 7, 0x2f2b18a, 0x253c66e3);
    Steps(values, 8, 0x253c66e3, 0x2bc830a3);
    assert values[..9] == values;
  }

  // BIP-173's `abcdef1qpzry9x8gf2tvdw0s3jn54khce6mua7lmqqqxw`, whose data part is every symbol in order and a checksum.

  lemma AlphabetTo5(values: seq<Word>)
    requires |values| == 51 && PolymodOf(values[..0]) == 0x1
    requires values[0] == 3 && values[1] == 3 && values[2] == 3 && values[3] == 3 && values[4] == 3
    ensures PolymodOf(values[..5]) == 0x2318c63
  {
    Steps(values, 0, 0x1, 0x23);
    Steps(values, 1, 0x23, 0x463);
    Steps(values, 2, 0x463, 0x8c63);
    Steps(values, 3, 0x8c63, 0x118c63);
    Steps(values, 4, 0x118c63, 0x2318c63);
  }

  lemma AlphabetTo10(values: seq<Word>)
    requires |values| == 51 && PolymodOf(values[..5]) == 0x2318c63
    requires values[5] == 3 && values[6] == 0 && values[7] == 1 && values[8] == 2 && values[9] == 3
    ensures PolymodOf(values[..10]) == 0x8d50561
  {
    Steps(values, 5, 0x2318c63, 0x3d5bdbd1);
    Steps(values, 6, 0x3d5bdbd1, 0x4dcbcd9);
    Steps(values, 7, 0x4dcbcd9, 0x3dc7154c);
    Steps(values, 8, 0x3dc7154c, 0x17456f7b);
    Steps(values, 9, 0x17456f7b, 0x8d50561);
  }

  lemma AlphabetTo15(values: seq<Word>)
    requires |values| == 51 && PolymodOf(values[..10]) == 0x8d50561
    requires values[10] == 4 && values[11] == 5 && values[12] == 6 && values[13] == 0 && values[14] == 1
    ensures PolymodOf(values[..15]) == 0x30018ce4
  {
    Steps(values, 10, 0x8d50561, 0x401b5de);
    Steps(values, 11, 0x401b5de, 0x266635a8);
    Steps(values, 12, 0x266635a8, 0x3be80e6a);
    Steps(values, 13, 0x3be80e6a, 0xf9cd266);
    Steps(values, 14, 0xf9cd266, 0x30018ce4);
  }

  lemma AlphabetTo20(values: seq<Word>)
    requires |values| == 51 && PolymodOf(values[..15]) == 0x30018ce4
    requires values[15] == 2 && values[16] == 3 && values[17] == 4 && values[18] == 5 && values[19] == 6
    ensures PolymodOf(values[..20]) == 0x12be0710
  {
    Steps(values, 15, 0x30018ce4, 0x1767cdec);
    Steps(values, 16, 0x1767cdec, 0xc815781);
    Steps(values, 17, 0xc815781, 0x28db67b3);
    Steps(values, 18, 0x28db67b3, 0x2fd98d2c);
    Steps(values, 19, 0x2fd98d2c, 0x12be0710);
  }

  lemma AlphabetTo25(values: seq<Word>)
    requires |values| == 51 && PolymodOf(values[..20]) == 0x12be0710
    requires values[20] == 7 && values[21] == 8 && values[22] == 9 && values[23] == 10 && values[24] == 11
    ensures PolymodOf(values[..25]) == 0x2f8ccedd
  {
    Steps(values, 20, 0x12be0710, 0x11e88668);
    Steps(values, 21, 0x11e88668, 0x52fed5);
    Steps(values, 22, 0x52fed5, 0xa5fdaa9);
    Steps(values, 23, 0xa5fdaa9, 0x2e301b62);
    Steps(values, 24, 0x2e301b62, 0x2f8ccedd);
  }

  lemma AlphabetTo30(values: seq<Word>)
    requires |values| == 51 && PolymodOf(values[..25]) == 0x2f8ccedd
    requires values[25] == 12 && values[26] == 13 && values[27] == 14 && values[28] == 15 && values[29] == 16
    ensures PolymodOf(values[..30]) == 0x3311a03e
  {
    Steps(values, 25, 0x2f8ccedd, 0x1816793a);
    Steps(values, 26, 0x1816793a, 0x212c0d6a);
    Steps(values, 27, 0x212c0d6a, 0xf95cffd);
    Steps(values, 28, 0xf95cffd, 0x31223f8a);
    Steps(values, 29, 0x31223f8a, 0x3311a03e);
  }

  lemma AlphabetTo35(values: seq<Word>)
    requires |values| == 51 && PolymodOf(values[..30]) == 0x3311a03e
    requires values[30] == 17 && values[31] == 18 && values[32] == 19 && values[33] == 20 && values[34] == 21
    ensures PolymodOf(values[..35]) == 0x556e704
  {
    Steps(values, 30, 0x3311a03e, 0xe08010d);
    Steps(values, 31, 0xe08010d, 0x29be197);
    Steps(values, 32, 0x29be197, 0x28166541);
    Steps(values, 33, 0x28166541, 0x3679d37d);
    Steps(values, 34, 0x3679d37d, 0x556e704);
  }

  lemma AlphabetTo40(values: seq<Word>)
    requires |values| == 51 && PolymodOf(values[..35]) == 0x556e704
    requires values[35] == 22 && values[36] == 23 && values[37] == 24 && values[38] == 25 && values[39] == 26
    ensures PolymodOf(values[..40]) == 0x347f64d1
  {
    Steps(values, 35, 0x556e704, 0xc8c6efb);
    Steps(values, 36, 0xc8c6efb, 0x297c48e0);
    Steps(values, 37, 0x297c48e0, 0x1b3c6751);
    Steps(values, 38, 0x1b3c6751, 0x3f0597ac);
    Steps(values, 39, 0x3f0597ac, 0x347f64d1);
  }

  lemma AlphabetTo45(values: seq<Word>)
    requires |values| == 51 && PolymodOf(values[..40]) == 0x347f64d1
    requires values[40] == 27 && values[41] == 28 && values[42] == 29 && values[43] == 30 && values[44] == 31
    ensures PolymodOf(values[..45]) == 0x1a0d3656
  {
    Steps(values, 40, 0x347f64d1, 0x3eea4538);
    Steps(values, 41, 0x3eea4538, 0x9853657);
    Steps(values, 42, 0x9853657, 0x2e07d307);
    Steps(values, 43, 0x2e07d307, 0x2975c268);
    Steps(values, 44, 0x2975c268, 0x1a0d3656);
  }

  lemma AlphabetTo50(values: seq<Word>)
    requires |values| == 51 && PolymodOf(values[..45]) == 0x1a0d3656
    requires values[45] == 27 && values[46] == 0 && values[47] == 0 && values[48] == 0 && values[49] == 6
    ensures PolymodOf(values[..50]) == 0x12314323
  {
    Steps(values, 45, 0x1a0d3656, 0x192fb74e);
    Steps(values, 46, 0x192fb74e, 0x615c3e7);
    Steps(values, 47, 0x615c3e7, 0x1f82a53f);
    Steps(values, 48, 0x1f82a53f, 0xe8d5418);
    Steps(values, 49, 0xe8d5418, 0x12314323);
  }
}
