/**
 Shift registers that are linear over GF(2), for any word type.

 A register absorbs one value per step: it advances its state and adds the value. When adding is an exclusive or and
 advancing is additive and loses nothing, two runs can be told apart by the sum of their inputs alone, which is the
 whole argument behind burst detection.
 */
module LinearRegister {
  /** Words under exclusive or. */
  datatype Words<!V> = Words(zero: V, xor: (V, V) -> V)

  /** A register: its words, and how it advances. */
  datatype Register<!V> = Register(words: Words<V>, advance: V -> V)

  ghost predicate Interchanges<V(!new)>(ws: Words<V>, a: V, b: V, c: V, d: V) {
    ws.xor(ws.xor(a, b), ws.xor(c, d)) == ws.xor(ws.xor(a, c), ws.xor(b, d))
  }

  ghost predicate Cancels<V(!new)>(ws: Words<V>, a: V, b: V) {
    && (ws.xor(a, b) == ws.zero <==> a == b)
    && ws.xor(a, ws.zero) == a
    && ws.xor(ws.xor(a, b), b) == a
  }

  ghost predicate Additive<V(!new)>(ws: Words<V>, f: V -> V, a: V, b: V) {
    f(ws.xor(a, b)) == ws.xor(f(a), f(b))
  }

  ghost predicate XorLaws<V(!new)>(ws: Words<V>) {
    && (forall a, b, c, d :: Interchanges(ws, a, b, c, d))
    && (forall a, b :: Cancels(ws, a, b))
  }

  ghost predicate IsAdditive<V(!new)>(ws: Words<V>, f: V -> V) {
    forall a, b :: Additive(ws, f, a, b)
  }

  /** An additive register in which no nonzero state ever advances to zero. */
  ghost predicate Lossless<V(!new)>(r: Register<V>) {
    && XorLaws(r.words) && IsAdditive(r.words, r.advance)
    && forall a :: r.advance(a) == r.words.zero ==> a == r.words.zero
  }

  /** The sum of several maps at one word, the last map last. */
  function SumOf<V>(ws: Words<V>, maps: seq<V -> V>, v: V): V {
    if maps == [] then ws.zero else ws.xor(SumOf(ws, maps[..|maps| - 1], v), maps[|maps| - 1](v))
  }

  lemma SumOfNext<V>(ws: Words<V>, maps: seq<V -> V>, i: nat, v: V)
    requires i < |maps|
    ensures SumOf(ws, maps[..i + 1], v) == ws.xor(SumOf(ws, maps[..i], v), maps[i](v))
  {
    assert maps[..i + 1][..i] == maps[..i];
  }

  lemma {:induction false} SumOfAdditive<V(!new)>(ws: Words<V>, maps: seq<V -> V>, a: V, b: V)
    requires XorLaws(ws) && forall i :: 0 <= i < |maps| ==> IsAdditive(ws, maps[i])
    ensures SumOf(ws, maps, ws.xor(a, b)) == ws.xor(SumOf(ws, maps, a), SumOf(ws, maps, b))
  {
    if maps == [] {
      assert Cancels(ws, ws.zero, ws.zero);
    } else {
      var n := |maps| - 1;
      var front, last := maps[..n], maps[n];
      SumOfAdditive(ws, front, a, b);
      assert Additive(ws, last, a, b);
      assert Interchanges(ws, SumOf(ws, front, a), SumOf(ws, front, b), last(a), last(b));
    }
  }

  function Run<V>(r: Register<V>, start: V, values: seq<V>): V {
    if values == [] then start
    else r.words.xor(r.advance(Run(r, start, values[..|values| - 1])), values[|values| - 1])
  }

  function XorAll<V>(r: Register<V>, v: seq<V>, w: seq<V>): (x: seq<V>)
    requires |v| == |w|
    ensures |x| == |v| && forall i :: 0 <= i < |v| ==> x[i] == r.words.xor(v[i], w[i])
  {
    seq(|v|, i requires 0 <= i < |v| => r.words.xor(v[i], w[i]))
  }

  /** The sum of two additive maps is additive. */
  lemma SumAdditive<V(!new)>(ws: Words<V>, f: V -> V, g: V -> V, h: V -> V)
    requires XorLaws(ws) && IsAdditive(ws, f) && IsAdditive(ws, g)
    requires forall v :: h(v) == ws.xor(f(v), g(v))
    ensures IsAdditive(ws, h)
  {
    forall a, b
      ensures Additive(ws, h, a, b)
    {
      assert Additive(ws, f, a, b) && Additive(ws, g, a, b);
      assert Interchanges(ws, f(a), f(b), g(a), g(b));
    }
  }

  /** Additive maps compose. */
  lemma ComposedAdditive<V(!new)>(ws: Words<V>, f: V -> V, g: V -> V, h: V -> V)
    requires IsAdditive(ws, f) && IsAdditive(ws, g)
    requires forall v :: h(v) == f(g(v))
    ensures IsAdditive(ws, h)
  {
    forall a, b
      ensures Additive(ws, h, a, b)
    {
      assert Additive(ws, g, a, b) && Additive(ws, f, g(a), g(b));
    }
  }

  lemma {:induction false} RunAppend<V>(r: Register<V>, start: V, v: seq<V>, w: seq<V>)
    ensures Run(r, start, v + w) == Run(r, Run(r, start, v), w)
  {
    if w == [] {
      assert v + w == v;
    } else {
      RunAppend(r, start, v, w[..|w| - 1]);
      assert (v + w)[..|v + w| - 1] == v + w[..|w| - 1];
    }
  }

  /** Two runs added together are the run of the added states over the added inputs. */
  lemma {:induction false} RunLinear<V(!new)>(r: Register<V>, a: V, b: V, v: seq<V>, w: seq<V>)
    requires Lossless(r) && |v| == |w|
    ensures Run(r, r.words.xor(a, b), XorAll(r, v, w)) == r.words.xor(Run(r, a, v), Run(r, b, w))
  {
    if v != [] {
      var n := |v| - 1;
      RunLinear(r, a, b, v[..n], w[..n]);
      assert XorAll(r, v, w)[..n] == XorAll(r, v[..n], w[..n]);
      var s, t := Run(r, a, v[..n]), Run(r, b, w[..n]);
      assert Additive(r.words, r.advance, s, t);
      assert Interchanges(r.words, r.advance(s), r.advance(t), v[n], w[n]);
    }
  }

  /** The same inputs never bring two different states together. */
  lemma {:induction false} RunInjective<V(!new)>(r: Register<V>, a: V, b: V, v: seq<V>)
    requires Lossless(r) && Run(r, a, v) == Run(r, b, v)
    ensures a == b
  {
    if v != [] {
      var n := |v| - 1;
      var s, t := Run(r, a, v[..n]), Run(r, b, v[..n]);
      assert Cancels(r.words, r.advance(s), v[n]) && Cancels(r.words, r.advance(t), v[n]);
      assert Additive(r.words, r.advance, s, t) && Cancels(r.words, r.advance(s), r.advance(t)) &&
             Cancels(r.words, s, t);
      RunInjective(r, a, b, v[..n]);
    }
  }

  /**
   A difference confined to a window shows at the end of the run, whatever surrounds the window, as long as the
   window's own sum does not run from zero back to zero.
   */
  lemma WindowShows<V(!new)>(r: Register<V>, start: V, before: seq<V>, v: seq<V>, w: seq<V>, after: seq<V>)
    requires Lossless(r) && |v| == |w|
    requires Run(r, start, before + v + after) == Run(r, start, before + w + after)
    ensures Run(r, r.words.zero, XorAll(r, v, w)) == r.words.zero
  {
    RunAppend(r, start, before + v, after);
    RunAppend(r, start, before + w, after);
    RunAppend(r, start, before, v);
    RunAppend(r, start, before, w);
    var s := Run(r, start, before);
    RunInjective(r, Run(r, s, v), Run(r, s, w), after);
    RunLinear(r, s, s, v, w);
    assert Cancels(r.words, s, s) && Cancels(r.words, Run(r, s, v), Run(r, s, w));
  }

  // ---- short runs from zero ----

  /** In the states `clear` accepts, advancing is a plain shift. */
  ghost predicate ShiftsWhenClear<V(!new)>(r: Register<V>, clear: V -> bool, shift: V -> V) {
    forall chk :: clear(chk) ==> r.advance(chk) == shift(chk)
  }

  /** A small symbol enters a state with room for `k` of them: it fits in the room for one more, and it shows. */
  ghost predicate Enters<V(!new)>(ws: Words<V>, clear: V -> bool, shift: V -> V, fits: (nat, V) -> bool, chk: V,
                           symbol: V, k: nat) {
    var next := ws.xor(shift(chk), symbol);
    clear(chk) && fits(k + 1, next) && (next == ws.zero ==> chk == ws.zero && symbol == ws.zero)
  }

  /** As many small symbols as there is room for never run from zero back to zero, unless they are all zero. */
  lemma {:induction false} ShortRun<V(!new)>(
    r: Register<V>, clear: V -> bool, shift: V -> V, fits: (nat, V) -> bool, small: V -> bool, room: nat, d: seq<V>)
    requires ShiftsWhenClear(r, clear, shift) && fits(0, r.words.zero)
    requires forall k: nat, chk, symbol :: k < room && fits(k, chk) && small(symbol) ==>
                                             Enters(r.words, clear, shift, fits, chk, symbol, k)
    requires |d| <= room && forall i :: 0 <= i < |d| ==> small(d[i])
    ensures fits(|d|, Run(r, r.words.zero, d))
    ensures Run(r, r.words.zero, d) == r.words.zero ==> forall i :: 0 <= i < |d| ==> d[i] == r.words.zero
  {
    if d != [] {
      var n := |d| - 1;
      ShortRun(r, clear, shift, fits, small, room, d[..n]);
      assert Enters(r.words, clear, shift, fits, Run(r, r.words.zero, d[..n]), d[n], n);
    }
  }

  /** The last `n` symbols of a word, most significant first, for a way to split off the lowest one. */
  function Digits<V>(high: V -> V, low: V -> V, word: V, n: nat): (d: seq<V>)
    ensures |d| == n
  {
    if n == 0 then [] else Digits(high, low, high(word), n - 1) + [low(word)]
  }

  /** Six digits, written out. */
  lemma SixDigits<V>(high: V -> V, low: V -> V, w0: V, w1: V, w2: V, w3: V, w4: V, w5: V)
    requires w1 == high(w0) && w2 == high(w1) && w3 == high(w2) && w4 == high(w3) && w5 == high(w4)
    ensures Digits(high, low, w0, 6) == [low(w5), low(w4), low(w3), low(w2), low(w1), low(w0)]
  {
    assert Digits(high, low, w5, 1) == [low(w5)];
    assert Digits(high, low, w4, 2) == [low(w5), low(w4)];
    assert Digits(high, low, w3, 3) == [low(w5), low(w4), low(w3)];
    assert Digits(high, low, w2, 4) == [low(w5), low(w4), low(w3), low(w2)];
    assert Digits(high, low, w1, 5) == [low(w5), low(w4), low(w3), low(w2), low(w1)];
  }

  /** Shifting the lowest symbol back in below the rest of its word gives the word. */
  ghost predicate Splits<V(!new)>(
    ws: Words<V>, clear: V -> bool, shift: V -> V, fits: (nat, V) -> bool, high: V -> V, low: V -> V, word: V, k: nat)
  {
    clear(high(word)) && fits(k, high(word)) && ws.xor(shift(high(word)), low(word)) == word
  }

  lemma {:induction false} DigitsRun<V(!new)>(
    r: Register<V>, clear: V -> bool, shift: V -> V, fits: (nat, V) -> bool, high: V -> V, low: V -> V, word: V,
    n: nat, room: nat)
    requires ShiftsWhenClear(r, clear, shift) && forall w :: fits(0, w) ==> w == r.words.zero
    requires forall k: nat, w :: k < room && fits(k + 1, w) ==> Splits(r.words, clear, shift, fits, high, low, w, k)
    requires n <= room && fits(n, word)
    ensures Run(r, r.words.zero, Digits(high, low, word, n)) == word
  {
    if n > 0 {
      assert fits((n - 1) + 1, word) && Splits(r.words, clear, shift, fits, high, low, word, n - 1);
      DigitsRun(r, clear, shift, fits, high, low, high(word), n - 1, room);
      var d := Digits(high, low, word, n);
      assert d[..n - 1] == Digits(high, low, high(word), n - 1);
    }
  }
}
