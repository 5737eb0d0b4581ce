/** LUD-25 mint fees: the advertised token, the fee, and the smallest invoice that nets a wanted amount. */
module Fees {
  import opened Prelude
  import opened Text

  datatype MintFee = MintFee(baseFeeMsat: int, feePpm: int, addressFeeMsat: Option<int>)

  const TOKEN: string := "Mint fees:"

  const MAX_SAFE_INT: int := 0x1F_FFFF_FFFF_FFFF

  const MILLION: int := 1_000_000

  /** What every fee the parser yields satisfies. */
  predicate Advertisable(fee: MintFee) {
    && 0 <= fee.baseFeeMsat <= MAX_SAFE_INT
    && 0 <= fee.feePpm < MILLION
    && (fee.addressFeeMsat.Some? ==> 0 <= fee.addressFeeMsat.value <= MAX_SAFE_INT)
  }

  // ---- the fee ----

  /** `floor(gross * ppm / 1_000_000)`, split so that no product exceeds 64 bits. Python's `//` and `%` floor. */
  function Proportional(gross: int, ppm: int): int {
    (gross / MILLION) * ppm + ((gross % MILLION) * ppm) / MILLION
  }

  function ApplyMintFee(gross: int, fee: MintFee): (net: int)
    ensures net >= 0
  {
    var net := gross - fee.baseFeeMsat - Proportional(gross, fee.feePpm);
    if net > 0 then net else 0
  }

  lemma DivMul(q: int, r: int, d: int)
    requires d > 0
    ensures (q * d + r) / d == q + r / d
  {
    var k, m := r / d, r % d;
    assert q * d + r == (q + k) * d + m;
    DivModUnique(q * d + r, d, q + k, m);
  }

  /** The split form is the plain floor. */
  lemma ProportionalIsFloor(gross: int, ppm: int)
    ensures Proportional(gross, ppm) == (gross * ppm) / MILLION
  {
    var q, r := gross / MILLION, gross % MILLION;
    assert gross * ppm == (q * ppm) * MILLION + r * ppm by {
      assert gross == q * MILLION + r;
      Distribute(q, r, ppm);
    }
    DivMul(q * ppm, r * ppm, MILLION);
  }

  /** What is withheld of a gross amount: the base fee, and the proportion of it rounded down. */
  function Withheld(gross: int, fee: MintFee): int {
    fee.baseFeeMsat + (gross * fee.feePpm) / 1_000_000
  }

  /** Exactly what a fee leaves: all but what is withheld, or nothing where that is everything. */
  lemma NetExactly(gross: int, fee: MintFee)
    ensures ApplyMintFee(gross, fee) > 0 ==> gross - ApplyMintFee(gross, fee) == Withheld(gross, fee)
    ensures ApplyMintFee(gross, fee) == 0 <==> Withheld(gross, fee) >= gross
  {
    ProportionalIsFloor(gross, fee.feePpm);
  }

  /** Each msat of base fee costs one msat of net, until nothing is left. */
  lemma BaseFeeCosts(gross: int, fee: MintFee, more: nat)
    ensures var net, less := ApplyMintFee(gross, fee),
              ApplyMintFee(gross, fee.(baseFeeMsat := fee.baseFeeMsat + more));
      less == if net > more then net - more else 0
  {
    var dearer := fee.(baseFeeMsat := fee.baseFeeMsat + more);
    NetExactly(gross, fee);
    NetExactly(gross, dearer);
    assert Withheld(gross, dearer) == Withheld(gross, fee) + more;
  }

  lemma Distribute(q: int, r: int, ppm: int)
    ensures (q * MILLION + r) * ppm == (q * ppm) * MILLION + r * ppm
  {
  }

  /** One more msat of gross costs at most one more msat of fee. */
  lemma ProportionalSteps(gross: int, ppm: int)
    requires 0 <= ppm < MILLION
    ensures Proportional(gross, ppm) <= Proportional(gross + 1, ppm) <= Proportional(gross, ppm) + 1
  {
    ProportionalIsFloor(gross, ppm);
    ProportionalIsFloor(gross + 1, ppm);
    var a := gross * ppm;
    assert (gross + 1) * ppm == a + ppm;
    FloorStep(a, ppm);
  }

  lemma FloorStep(a: int, ppm: int)
    requires 0 <= ppm < MILLION
    ensures a / MILLION <= (a + ppm) / MILLION <= a / MILLION + 1
  {
  }

  /** Net never falls as gross grows, and grows by at most one msat for each. */
  lemma NetSteps(gross: int, fee: MintFee)
    requires 0 <= fee.feePpm < MILLION
    ensures ApplyMintFee(gross, fee) <= ApplyMintFee(gross + 1, fee) <= ApplyMintFee(gross, fee) + 1
  {
    ProportionalSteps(gross, fee.feePpm);
  }

  lemma {:induction false} NetMonotone(low: int, high: int, fee: MintFee)
    requires 0 <= fee.feePpm < MILLION && low <= high
    ensures ApplyMintFee(low, fee) <= ApplyMintFee(high, fee)
    decreases high - low
  {
    if low < high {
      NetMonotone(low, high - 1, fee);
      NetSteps(high - 1, fee);
    }
  }

  /** Below 100% at least a millionth of the gross is left. */
  lemma EnoughGross(gross: int, net: int, fee: MintFee)
    requires 0 <= fee.feePpm < MILLION && 0 <= net && 0 <= fee.baseFeeMsat
    requires gross >= (net + fee.baseFeeMsat) * MILLION
    ensures ApplyMintFee(gross, fee) >= net
  {
    var most := MILLION - 1;
    ProportionalIsFloor(gross, fee.feePpm);
    assert gross * fee.feePpm <= gross * most by { ScaleMonotone(gross, fee.feePpm, most); }
    assert (gross * fee.feePpm) / MILLION <= (gross * most) / MILLION;
    assert gross * most == gross * MILLION - gross;
    LeftOver(gross, net + fee.baseFeeMsat);
  }

  lemma ScaleMonotone(gross: int, a: int, b: int)
    requires 0 <= gross && a <= b
    ensures gross * a <= gross * b
  {
  }

  lemma LeftOver(gross: int, wanted: int)
    requires gross >= wanted * MILLION
    ensures (gross * MILLION - gross) / MILLION <= gross - wanted
  {
  }

  // ---- gross-up ----

  /** `gross` nets at least `net`, and nothing smaller that is not negative does. */
  ghost predicate IsSmallestGross(gross: int, net: int, fee: MintFee) {
    && gross >= 0
    && ApplyMintFee(gross, fee) >= net
    && forall g :: 0 <= g < gross ==> ApplyMintFee(g, fee) < net
  }

  /** The smallest gross is the adjoint of the fee: it is at most `g` exactly when `g` nets enough. */
  lemma SmallestGrossIsAdjoint(gross: int, net: int, fee: MintFee, g: int)
    requires 0 <= fee.feePpm < MILLION && IsSmallestGross(gross, net, fee) && g >= 0
    ensures gross <= g <==> net <= ApplyMintFee(g, fee)
  {
    if gross <= g {
      NetMonotone(gross, g, fee);
    }
  }

  /** It nets exactly what was asked for. */
  lemma SmallestGrossIsExact(gross: int, net: int, fee: MintFee)
    requires 0 <= fee.feePpm < MILLION && 0 <= fee.baseFeeMsat && net > 0 && IsSmallestGross(gross, net, fee)
    ensures ApplyMintFee(gross, fee) == net
  {
    assert gross > 0 by {
      assert Proportional(0, fee.feePpm) == 0;
    }
    NetSteps(gross - 1, fee);
  }

  /** `n`, doubled `k` times. */
  function Doubled(n: nat, k: nat): nat {
    if k == 0 then n else 2 * Doubled(n, k - 1)
  }

  /**
   `gross_up_for_mint_fee`: double until the fee is covered, then search. `doublings` and `probes` count the two loops'
   iterations: at most 20 of the first, and at most one more than the binary logarithm of the bound they reach of the
   second.
   */
  method GrossUpForMintFee(net: int, fee: MintFee) returns (gross: int, ghost doublings: nat, ghost probes: nat)
    requires 0 <= fee.baseFeeMsat && 0 <= fee.feePpm < MILLION
    ensures IsSmallestGross(gross, net, fee)
    ensures forall g :: g >= 0 ==> (gross <= g <==> net <= ApplyMintFee(g, fee))
    ensures if net <= 0 then gross == 0 else CoversExactly(gross, net, fee)
    ensures net > 0 ==> ApplyMintFee(gross, fee) == net
    ensures doublings <= 20
    ensures probes > 0 ==> net > 0 && Doubled(1, probes) <= 2 * Doubled(net + fee.baseFeeMsat, doublings)
  {
    doublings, probes := 0, 0;
    if net <= 0 {
      gross := 0;
    } else {
      var hi := net + fee.baseFeeMsat;
      while ApplyMintFee(hi, fee) < net
        invariant hi == Doubled(net + fee.baseFeeMsat, doublings) && doublings <= 20
        decreases 20 - doublings
      {
        DoublingsLeft(net, fee, doublings);
        hi := hi * 2;
        doublings := doublings + 1;
      }
      ghost var start := hi;
      var lo := 0;
      while lo < hi
        invariant Searching(lo, hi, net, fee, probes, start)
        decreases hi - lo
      {
        var mid := (lo + hi) / 2;
        SearchNarrows(lo, hi, mid, net, fee, probes, start);
        if ApplyMintFee(mid, fee) >= net {
          hi := mid;
        } else {
          lo := mid + 1;
        }
        probes := probes + 1;
      }
      gross := lo;
      NoneSmaller(gross, net, fee);
    }
    SmallestGrossMeans(gross, net, fee);
  }

  /** Gross is net and what is withheld of it, and nothing smaller leaves as much. */
  ghost predicate CoversExactly(gross: int, net: int, fee: MintFee) {
    gross == net + Withheld(gross, fee) && forall g :: 0 <= g < gross ==> g - Withheld(g, fee) < net
  }

  /** Where the search is: between a gross that does not net enough, or none, and one that does. */
  ghost predicate Searching(lo: int, hi: int, net: int, fee: MintFee, probes: nat, start: int) {
    && 0 <= lo <= hi && ApplyMintFee(hi, fee) >= net
    && (lo > 0 ==> ApplyMintFee(lo - 1, fee) < net)
    && Doubled(hi - lo, probes) <= start && (probes > 0 ==> Doubled(1, probes) <= 2 * start)
  }

  lemma SearchNarrows(lo: int, hi: int, mid: int, net: int, fee: MintFee, probes: nat, start: int)
    requires Searching(lo, hi, net, fee, probes, start) && lo < hi && mid == (lo + hi) / 2
    ensures lo <= mid < hi
    ensures if ApplyMintFee(mid, fee) >= net then Searching(lo, mid, net, fee, probes + 1, start)
            else Searching(mid + 1, hi, net, fee, probes + 1, start)
  {
    Probed(lo, hi, mid, probes, start);
  }

  lemma SmallestGrossMeans(gross: int, net: int, fee: MintFee)
    requires 0 <= fee.baseFeeMsat && 0 <= fee.feePpm < MILLION && IsSmallestGross(gross, net, fee)
    ensures forall g :: g >= 0 ==> (gross <= g <==> net <= ApplyMintFee(g, fee))
    ensures net > 0 ==> ApplyMintFee(gross, fee) == net && CoversExactly(gross, net, fee)
  {
    AdjointEverywhere(gross, net, fee);
    if net > 0 {
      SmallestGrossIsExact(gross, net, fee);
      NetExactly(gross, fee);
      forall g | 0 <= g < gross ensures g - Withheld(g, fee) < net { NetExactly(g, fee); }
    }
  }

  lemma AdjointEverywhere(gross: int, net: int, fee: MintFee)
    requires 0 <= fee.baseFeeMsat && 0 <= fee.feePpm < MILLION && IsSmallestGross(gross, net, fee)
    ensures forall g :: g >= 0 ==> (gross <= g <==> net <= ApplyMintFee(g, fee))
  {
    forall g | g >= 0 ensures gross <= g <==> net <= ApplyMintFee(g, fee) {
      SmallestGrossIsAdjoint(gross, net, fee, g);
    }
  }

  lemma DoublingsLeft(net: int, fee: MintFee, doublings: nat)
    requires 0 <= fee.baseFeeMsat && 0 <= fee.feePpm < MILLION && net > 0 && doublings <= 20
    requires ApplyMintFee(Doubled(net + fee.baseFeeMsat, doublings), fee) < net
    ensures doublings < 20
  {
    var base := net + fee.baseFeeMsat;
    if doublings == 20 {
      TwentyDoublings(base);
      EnoughGross(Doubled(base, 20), net, fee);
    }
  }

  lemma TwentyDoublings(n: nat)
    ensures Doubled(n, 20) == 1_048_576 * n
  {
    FourDoublings(n, 0);
    FourDoublings(n, 4);
    FourDoublings(n, 8);
    FourDoublings(n, 12);
    FourDoublings(n, 16);
  }

  lemma FourDoublings(n: nat, k: nat)
    ensures Doubled(n, k + 4) == 16 * Doubled(n, k)
  {
    assert Doubled(n, k + 2) == 2 * Doubled(n, k + 1);
  }

  lemma {:induction false} DoubledMonotone(a: nat, b: nat, k: nat)
    requires a <= b
    ensures Doubled(a, k) <= Doubled(b, k)
  {
    if k > 0 {
      DoubledMonotone(a, b, k - 1);
    }
  }

  lemma {:induction false} DoubledTwice(n: nat, k: nat)
    ensures Doubled(2 * n, k) == Doubled(n, k + 1)
  {
    if k > 0 {
      DoubledTwice(n, k - 1);
    }
  }

  lemma Halves(width: nat, left: nat, right: int, k: nat)
    requires width > 0 && left == width / 2 && right == width - left - 1
    ensures Doubled(left, k + 1) <= Doubled(width, k)
    ensures right >= 0 && Doubled(right, k + 1) <= Doubled(width, k)
    ensures Doubled(1, k + 1) <= 2 * Doubled(width, k)
  {
    DoubledTwice(left, k);
    DoubledTwice(right, k);
    DoubledMonotone(2 * left, width, k);
    DoubledMonotone(2 * right, width, k);
    DoubledMonotone(1, width, k);
  }

  /** Either half of the search leaves the count of probes within its bound. */
  lemma Probed(lo: int, hi: int, mid: int, probes: nat, start: int)
    requires lo < hi && mid == (lo + hi) / 2 && Doubled(hi - lo, probes) <= start
    ensures lo <= mid < hi && Doubled(mid - lo, probes + 1) <= start && Doubled(hi - (mid + 1), probes + 1) <= start
    ensures Doubled(1, probes + 1) <= 2 * start
  {
    Halves(hi - lo, mid - lo, hi - mid - 1, probes);
  }

  lemma NoneSmaller(gross: int, net: int, fee: MintFee)
    requires 0 <= fee.feePpm < MILLION && gross >= 0 && ApplyMintFee(gross, fee) >= net
    requires gross > 0 ==> ApplyMintFee(gross - 1, fee) < net
    ensures IsSmallestGross(gross, net, fee)
  {
    forall g | 0 <= g < gross ensures ApplyMintFee(g, fee) < net { NetMonotone(g, gross - 1, fee); }
  }

  /** At 100% and above no gross nets anything: the bound on ppm is exactly what makes the search end. */
  lemma SearchableExactly(fee: MintFee)
    requires 0 <= fee.baseFeeMsat && 0 <= fee.feePpm
    ensures (exists gross :: gross >= 0 && ApplyMintFee(gross, fee) > 0) <==> fee.feePpm < MILLION
  {
    if fee.feePpm < MILLION {
      EnoughGross((1 + fee.baseFeeMsat) * MILLION, 1, fee);
    } else {
      forall gross | gross >= 0 ensures ApplyMintFee(gross, fee) == 0 {
        ProportionalIsFloor(gross, fee.feePpm);
        ScaleMonotone(gross, MILLION, fee.feePpm);
        assert (gross * MILLION) / MILLION == gross;
      }
    }
  }

  // ---- the advertised token ----

  function ValueOf(text: string): (v: Option<int>)
    ensures v.Some? ==> 0 <= v.value <= MAX_SAFE_INT
  {
    if text == [] || !AllDigits(text) then None
    else if ParseDecimal(text) <= MAX_SAFE_INT then Some(ParseDecimal(text))
    else None
  }

  /** The text up to the next whitespace: `text.split(None, 1)[0]` of a text that does not start with any. */
  function FirstWord(text: string): (w: string)
    ensures |w| <= |text| && w == text[..|w|]
  {
    if text == [] || IsSpace(text[0]) then [] else [text[0]] + FirstWord(text[1..])
  }

  /** `text.split(sep)`. */
  function Split(text: string, sep: char): (parts: seq<string>)
    ensures |parts| >= 1
  {
    if text == [] then [[]]
    else
      var rest := Split(text[1..], sep);
      if text[0] == sep then [[]] + rest else [[text[0]] + rest[0]] + rest[1..]
  }

  function FeeOfFields(parts: seq<string>): (fee: Option<MintFee>)
    requires |parts| >= 1
    ensures fee.Some? ==> Advertisable(fee.value)
  {
    var base := ValueOf(parts[0]);
    var ppm := if |parts| > 1 then ValueOf(parts[1]) else None;
    if base.None? || ppm.None? || ppm.value >= MILLION then None
    else Some(MintFee(base.value, ppm.value, if |parts| > 2 then ValueOf(parts[2]) else None))
  }

  /** `_parse_token`: the values after the token and any whitespace, up to the next whitespace. */
  function ParseToken(text: string): (fee: Option<MintFee>)
    ensures fee.Some? ==> Advertisable(fee.value)
  {
    var at := Find(text, TOKEN, 0);
    if at.None? then None
    else FeeAfter(text[at.value + |TOKEN|..])
  }

  function FeeAfter(rest: string): (fee: Option<MintFee>)
    ensures fee.Some? ==> Advertisable(fee.value)
  {
    FeeOfFields(Split(FirstWord(StripLeft(rest)), ','))
  }

  lemma {:induction false} SplitHead(head: string, tail: string, sep: char)
    requires sep !in head
    ensures Split(head + [sep] + tail, sep) == [head] + Split(tail, sep)
    ensures Split(head, sep) == [head]
  {
    var text := head + [sep] + tail;
    if head == [] {
      assert text[1..] == tail;
    } else {
      SplitHead(head[1..], tail, sep);
      assert text[1..] == head[1..] + [sep] + tail;
      assert head == [head[0]] + head[1..];
    }
  }

  lemma {:induction false} FirstWordOf(word: string, tail: string)
    requires forall i :: 0 <= i < |word| ==> !IsSpace(word[i])
    requires tail == [] || IsSpace(tail[0])
    ensures FirstWord(word + tail) == word
  {
    if word != [] {
      FirstWordOf(word[1..], tail);
      assert (word + tail)[1..] == word[1..] + tail;
    }
  }

  /** A token's values, the address fee last where there is one. */
  function Values(base: nat, ppm: nat, addressFee: Option<nat>): (s: string)
    ensures s != [] && forall i :: 0 <= i < |s| ==> !IsSpace(s[i])
  {
    Decimal(base) + "," + (Decimal(ppm) + if addressFee.Some? then "," + Decimal(addressFee.value) else "")
  }

  /** The fee three values advertise, if any. */
  function Advertised(base: nat, ppm: nat, addressFee: Option<nat>): Option<MintFee> {
    if base <= 0x1F_FFFF_FFFF_FFFF && ppm < 1_000_000 then
      Some(MintFee(base, ppm, if addressFee.Some? && addressFee.value <= 0x1F_FFFF_FFFF_FFFF then addressFee else None))
    else None
  }

  /**
   An advertised fee is read back from any text that carries its token, up to whitespace or the end of the text; an
   address fee out of range reads as none, and the other two out of range refuse the token.
   */
  lemma TokenReadsBack(before: string, spaces: string, base: nat, ppm: nat, addressFee: Option<nat>, tail: string)
    requires Find(before + TOKEN, TOKEN, 0) == Some(|before|)
    requires AllSpace(spaces)
    requires tail == [] || IsSpace(tail[0])
    ensures ParseToken(before + TOKEN + (spaces + (Values(base, ppm, addressFee) + tail))) ==
            Advertised(base, ppm, addressFee)
  {
    TokenReads(before, spaces, Values(base, ppm, addressFee), tail);
    FieldsRead(base, ppm, addressFee);
  }

  lemma TokenReads(before: string, spaces: string, word: string, tail: string)
    requires Find(before + TOKEN, TOKEN, 0) == Some(|before|)
    requires word != [] && forall i :: 0 <= i < |word| ==> !IsSpace(word[i])
    requires AllSpace(spaces)
    requires tail == [] || IsSpace(tail[0])
    ensures ParseToken(before + TOKEN + (spaces + (word + tail))) == FeeOfFields(Split(word, ','))
  {
    FindLocal(before + TOKEN, spaces + (word + tail), TOKEN, 0);
    WordReads(word, spaces, tail);
    DropsHead(before + TOKEN, spaces + (word + tail));
    ParsesAfter(before + TOKEN + (spaces + (word + tail)), |before|, spaces + (word + tail));
  }

  lemma WordReads(word: string, spaces: string, tail: string)
    requires word != [] && forall i :: 0 <= i < |word| ==> !IsSpace(word[i])
    requires AllSpace(spaces)
    requires tail == [] || IsSpace(tail[0])
    ensures FirstWord(StripLeft(spaces + (word + tail))) == word
  {
    StripLeftOf(spaces, word + tail);
    FirstWordOf(word, tail);
  }

  lemma ParsesAfter(text: string, at: nat, rest: string)
    requires Find(text, TOKEN, 0) == Some(at) && at + |TOKEN| <= |text| && text[at + |TOKEN|..] == rest
    ensures ParseToken(text) == FeeAfter(rest)
  {
  }

  lemma FieldsRead(base: nat, ppm: nat, addressFee: Option<nat>)
    ensures FeeOfFields(Split(Values(base, ppm, addressFee), ',')) ==
            Advertised(base, ppm, addressFee)
  {
    FieldsOf(base, ppm, addressFee);
    ParseOfDecimal(base);
    ParseOfDecimal(ppm);
    if addressFee.Some? {
      ParseOfDecimal(addressFee.value);
    }
  }

  lemma FieldsOf(base: nat, ppm: nat, addressFee: Option<nat>)
    ensures Split(Values(base, ppm, addressFee), ',') ==
            [Decimal(base), Decimal(ppm)] + if addressFee.Some? then [Decimal(addressFee.value)] else []
  {
    var last := Decimal(ppm);
    match addressFee
    case None =>
      assert last + "" == last;
      SplitHead(Decimal(base), last, ',');
      SplitHead(last, [], ',');
    case Some(fee) =>
      SplitHead(Decimal(base), last + "," + Decimal(fee), ',');
      Associates(last, ",", Decimal(fee));
      SplitHead(last, Decimal(fee), ',');
      SplitHead(Decimal(fee), [], ',');
  }

  /** The token as a SERVICE writes it: its name, a space, a base fee of one sat and one percent. */
  lemma KnownToken()
    ensures ParseToken("Mint fees:" + (" " + ("1000" + "," + "10000"))) == Some(MintFee(1000, 10_000, None))
  {
    KnownValues("1000", "10000");
    TokenReadsBack("", " ", 1000, 10_000, None, "");
    assert "" + TOKEN == TOKEN && TOKEN == "Mint fees:";
    FirstIsFound(TOKEN, TOKEN, 0, 0);
    assert Values(1000, 10_000, None) + "" == "1000" + "," + "10000";
  }

  lemma KnownValues(base: string, ppm: string)
    requires base == "1000" && ppm == "10000"
    ensures Decimal(1000) == base && Decimal(10_000) == ppm
    ensures Values(1000, 10_000, None) == base + "," + ppm
  {
    assert Decimal(10) == "10" && Decimal(100) == "100";
    assert Decimal(10_000) == Decimal(1000) + [DigitChar(0)];
    assert ppm + "" == ppm;
  }
}
