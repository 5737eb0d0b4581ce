/** `cs1` certificates: an amount in the prefix, in BOLT 11's spelling, and a recoverable signature in the payload. */
module Certificates {
  import opened Prelude
  import opened Text
  import Bech32
  import Checksum

  // ---- amounts ----

  const MSAT_PER_BTC: nat := 100_000_000_000

  /** Msat in one of a unit, for the units that are whole msat. */
  function UnitMsat(unit: string): nat
    requires unit in {"", "m", "u", "n"}
  {
    if unit == "" then MSAT_PER_BTC
    else if unit == "m" then 100_000_000
    else if unit == "u" then 100_000
    else 100
  }

  /** `_encode_cs1_amount_suffix`: the largest unit that divides the amount, and pico-BTC at the last. */
  function EncodeSuffix(amount: nat): (s: string)
    ensures s != []
  {
    if amount % MSAT_PER_BTC == 0 then Decimal(amount / MSAT_PER_BTC)
    else if amount % 100_000_000 == 0 then Decimal(amount / 100_000_000) + "m"
    else if amount % 100_000 == 0 then Decimal(amount / 100_000) + "u"
    else if amount % 100 == 0 then Decimal(amount / 100) + "n"
    else Decimal(amount * 10) + "p"
  }

  /** The amount `digits` of a unit name: a pico-BTC is a tenth of a msat, so only tens of them count. */
  function AmountOf(digits: string, unit: string): Option<nat>
    requires AllDigits(digits) && unit in {"", "m", "u", "n", "p"}
  {
    if digits == [] then None
    else if unit != "p" then Some(ParseDecimal(digits) * UnitMsat(unit))
    else if ParseDecimal(digits) % 10 != 0 then None
    else Some(ParseDecimal(digits) / 10)
  }

  /** A BTC is 10^8 sat of 1000 msat, and each unit a thousandth of the one before. */
  lemma UnitsAreDecimal(digits: string)
    requires digits != [] && AllDigits(digits)
    ensures AmountOf(digits, "") == Some(ParseDecimal(digits) * 100_000_000 * 1000)
    ensures AmountOf(digits, "").value == 1000 * AmountOf(digits, "m").value
    ensures AmountOf(digits, "m").value == 1000 * AmountOf(digits, "u").value
    ensures AmountOf(digits, "u").value == 1000 * AmountOf(digits, "n").value
    ensures AmountOf(digits, "p").Some? <==> AmountOf(digits, "n").value % 1000 == 0
    ensures AmountOf(digits, "p").Some? ==> AmountOf(digits, "n").value == 1000 * AmountOf(digits, "p").value
  {
    TensOfPico(ParseDecimal(digits));
  }

  lemma TensOfPico(n: nat)
    ensures (n * 100) % 1000 == 0 <==> n % 10 == 0
    ensures n % 10 == 0 ==> n * 100 == 1000 * (n / 10)
  {
  }

  predicate IsUnit(c: char) {
    c in {'m', 'u', 'n', 'p'}
  }

  /** A trailing unit letter, or none. */
  function UnitOf(value: string): (u: string)
    ensures u in {"", "m", "u", "n", "p"} && |u| <= |value| && value[|value| - |u|..] == u
  {
    if value != [] && IsUnit(value[|value| - 1]) then [value[|value| - 1]] else ""
  }

  /** `_decode_cs1_amount_suffix`. */
  function DecodeSuffix(value: string): Option<nat> {
    if value == [] then None
    else
      var unit := UnitOf(value);
      var digits := value[..|value| - |unit|];
      if digits == [] || !AllDigits(digits) then None else AmountOf(digits, unit)
  }

  lemma UnitSplits(digits: string, unit: string)
    requires digits != [] && AllDigits(digits) && unit in {"", "m", "u", "n", "p"}
    ensures UnitOf(digits + unit) == unit && (digits + unit)[..|digits + unit| - |unit|] == digits
  {
    var s := digits + unit;
    if unit == "" {
      assert s == digits && IsDigit(digits[|digits| - 1]);
    } else {
      assert s[|s| - 1] == unit[0] && unit == [unit[0]];
    }
  }

  lemma DecodeSuffixOf(digits: string, unit: string)
    requires digits != [] && AllDigits(digits) && unit in {"", "m", "u", "n", "p"}
    ensures DecodeSuffix(digits + unit) == AmountOf(digits, unit)
  {
    UnitSplits(digits, unit);
  }

  /** The digits and unit an amount is written with, and that they mean it. */
  lemma SuffixParts(amount: nat) returns (digits: string, unit: string)
    ensures digits != [] && AllDigits(digits) && unit in {"", "m", "u", "n", "p"}
    ensures EncodeSuffix(amount) == digits + unit && AmountOf(digits, unit) == Some(amount)
  {
    if amount % MSAT_PER_BTC == 0 {
      digits := WholeUnits(amount, "");
      unit := "";
      assert digits + "" == digits;
    } else if amount % 100_000_000 == 0 {
      digits := WholeUnits(amount, "m");
      unit := "m";
    } else if amount % 100_000 == 0 {
      digits := WholeUnits(amount, "u");
      unit := "u";
    } else if amount % 100 == 0 {
      digits := WholeUnits(amount, "n");
      unit := "n";
    } else {
      digits := Picos(amount);
      unit := "p";
    }
  }

  lemma WholeUnits(amount: nat, unit: string) returns (digits: string)
    requires unit in {"", "m", "u", "n"} && amount % UnitMsat(unit) == 0
    ensures digits == Decimal(amount / UnitMsat(unit)) && AmountOf(digits, unit) == Some(amount)
  {
    digits := Decimal(amount / UnitMsat(unit));
    ParseOfDecimal(amount / UnitMsat(unit));
  }

  lemma Picos(amount: nat) returns (digits: string)
    ensures digits == Decimal(amount * 10) && AmountOf(digits, "p") == Some(amount)
  {
    digits := Decimal(amount * 10);
    ParseOfDecimal(amount * 10);
  }

  /** Every amount reads back from its own suffix. */
  lemma SuffixRoundTrip(amount: nat)
    ensures DecodeSuffix(EncodeSuffix(amount)) == Some(amount)
  {
    var digits, unit := SuffixParts(amount);
    DecodeSuffixOf(digits, unit);
  }

  /** The suffix written is as short as any spelling of the amount, which is what BOLT 11 asks of a writer. */
  lemma SuffixIsShortest(amount: nat, digits: string, unit: string)
    requires digits != [] && AllDigits(digits) && unit in {"", "m", "u", "n", "p"}
    requires AmountOf(digits, unit) == Some(amount)
    ensures |EncodeSuffix(amount)| <= |digits| + |unit|
  {
    var v := ParseDecimal(digits);
    DecimalShortest(digits);
    if unit == "" {
      WrittenBtc(v);
    } else if unit == "m" {
      WrittenMilli(v);
    } else if unit == "u" {
      WrittenMicro(v);
    } else if unit == "n" {
      WrittenNano(v);
    } else {
      WrittenPico(amount);
    }
    DecimalMonotone(Written(amount), v);
  }

  lemma WrittenBtc(v: nat)
    ensures Written(v * MSAT_PER_BTC) == v && (v * MSAT_PER_BTC) % MSAT_PER_BTC == 0
  {
    DivModUnique(v * MSAT_PER_BTC, MSAT_PER_BTC, v, 0);
  }

  lemma WrittenMilli(v: nat)
    ensures Written(v * 100_000_000) <= v
  {
    DivModUnique(v * 100_000_000, 100_000_000, v, 0);
    LargerUnit(v, 100_000_000, MSAT_PER_BTC);
  }

  lemma WrittenMicro(v: nat)
    ensures Written(v * 100_000) <= v
  {
    DivModUnique(v * 100_000, 100_000, v, 0);
    LargerUnit(v, 100_000, 100_000_000);
    LargerUnit(v, 100_000, MSAT_PER_BTC);
  }

  lemma WrittenNano(v: nat)
    ensures Written(v * 100) <= v
  {
    DivModUnique(v * 100, 100, v, 0);
    LargerUnit(v, 100, 100_000);
    LargerUnit(v, 100, 100_000_000);
    LargerUnit(v, 100, MSAT_PER_BTC);
  }

  lemma WrittenPico(amount: nat)
    ensures Written(amount) <= amount * 10
  {
  }

  /** There are no more of a larger unit. */
  lemma LargerUnit(v: nat, small: nat, large: nat)
    requires 0 < small <= large
    ensures (v * small) / large <= v
  {
    LessTimes(v, (v * small) / large, large);
    TimesSum(small, large - small, v);
    TimesNat(large - small, v);
    Commutes(v, small);
    Commutes(v, large);
  }

  lemma Commutes(a: int, b: int)
    ensures a * b == b * a
  {
  }

  /** The number of units an amount is written as. */
  function Written(amount: nat): (n: nat)
    ensures |EncodeSuffix(amount)| == |Decimal(n)| + if amount % MSAT_PER_BTC == 0 then 0 else 1
  {
    if amount % MSAT_PER_BTC == 0 then amount / MSAT_PER_BTC
    else if amount % 100_000_000 == 0 then amount / 100_000_000
    else if amount % 100_000 == 0 then amount / 100_000
    else if amount % 100 == 0 then amount / 100
    else amount * 10
  }

  // ---- the same amounts in a BOLT 11 invoice ----

  const NETWORKS: seq<string> := ["bc", "tb", "bcrt", "tbs", "sb"]

  /** The amount part of an invoice's prefix: digits, then at most one unit letter. */
  function AmountPart(tail: string): Option<(string, string)> {
    var unit := UnitOf(tail);
    var digits := tail[..|tail| - |unit|];
    if AllDigits(digits) then Some((digits, unit)) else None
  }

  /** The first network, in the pattern's own order, after which an amount part is all that is left. */
  function MatchNetwork(networks: seq<string>, rest: string): Option<(string, string)> {
    if networks == [] then None
    else
      var network := networks[0];
      if network <= rest && AmountPart(rest[|network|..]).Some? then AmountPart(rest[|network|..])
      else MatchNetwork(networks[1..], rest)
  }

  /** The invoice prefix pattern. Its `$` also matches just before a newline that ends the text. */
  function MatchHrp(hrp: string): Option<(string, string)> {
    var h := if hrp != [] && hrp[|hrp| - 1] == '\n' then hrp[..|hrp| - 1] else hrp;
    if "ln" <= h then MatchNetwork(NETWORKS, h[2..]) else None
  }

  /** `decode_bolt11_amount_msat`. */
  function DecodeBolt11Amount(pr: string): Option<nat> {
    var trimmed := Lower(Strip(pr));
    var sep := Bech32.LastOne(trimmed);
    if sep.None? || sep.value < 2 then None
    else
      match MatchHrp(trimmed[..sep.value])
      case None => None
      case Some((digits, unit)) =>
        if AllDigits(digits) && unit in {"", "m", "u", "n", "p"} then AmountOf(digits, unit) else None
  }

  lemma AmountPartOf(digits: string, unit: string)
    requires digits != [] && AllDigits(digits) && unit in {"", "m", "u", "n", "p"}
    ensures AmountPart(digits + unit) == Some((digits, unit))
  {
    UnitSplits(digits, unit);
  }

  lemma NotAnAmount(head: string, tail: string)
    requires head != [] && tail != [] && !IsDigit(head[0])
    ensures AmountPart(head + tail).None?
  {
    var s := head + tail;
    assert s[..|s| - |UnitOf(s)|][0] == head[0];
  }

  lemma NetworkMatches(network: nat, digits: string, unit: string)
    requires network < |NETWORKS|
    requires digits != [] && AllDigits(digits) && unit in {"", "m", "u", "n", "p"}
    ensures MatchNetwork(NETWORKS, NETWORKS[network] + (digits + unit)) == Some((digits, unit))
  {
    AmountPartOf(digits, unit);
    forall j | 0 <= j < network ensures Skipped(NETWORKS[j], NETWORKS[network] + (digits + unit)) {
      EarlierNetworkFails(j, network, digits + unit);
    }
    FirstMatch(NETWORKS, network, NETWORKS[network] + (digits + unit), digits + unit);
  }

  /** A network the pattern cannot take: no amount follows it. */
  predicate Skipped(network: string, rest: string) {
    network <= rest ==> AmountPart(rest[|network|..]).None?
  }

  lemma {:induction false} FirstMatch(networks: seq<string>, k: nat, rest: string, amount: string)
    requires k < |networks| && rest == networks[k] + amount && AmountPart(amount).Some?
    requires forall j :: 0 <= j < k ==> Skipped(networks[j], rest)
    ensures MatchNetwork(networks, rest) == AmountPart(amount)
  {
    if k == 0 {
      assert rest[|networks[0]|..] == amount;
    } else {
      assert Skipped(networks[0], rest);
      FirstMatch(networks[1..], k - 1, rest, amount);
    }
  }

  lemma EarlierNetworkFails(k: nat, network: nat, amount: string)
    requires k < network < |NETWORKS| && amount != []
    ensures Skipped(NETWORKS[k], NETWORKS[network] + amount)
  {
    var rest := NETWORKS[network] + amount;
    if network == 2 && k == 0 {
      assert rest[2..] == "rt" + amount;
      NotAnAmount("rt", amount);
    } else if network == 3 && k == 1 {
      assert rest[2..] == "s" + amount;
      NotAnAmount("s", amount);
    } else {
      DifferentStart(k, network);
      if NETWORKS[k] <= rest {
        assert NETWORKS[k][0] == rest[0] && NETWORKS[k][1] == rest[1];
      }
    }
  }

  lemma DifferentStart(k: nat, network: nat)
    requires k < network < |NETWORKS| && !(network == 2 && k == 0) && !(network == 3 && k == 1)
    ensures NETWORKS[k][0] != NETWORKS[network][0] || NETWORKS[k][1] != NETWORKS[network][1]
  {
  }

  /**
   A certificate's suffix and an invoice's amount are read alike: the same digits and unit, in any network's invoice,
   mean the same number of msat, or in both are no amount.
   */
  lemma SuffixAgreesWithBolt11(network: nat, digits: string, unit: string, data: string)
    requires network < |NETWORKS| && data != [] && Bech32.InCharset(data)
    requires digits != [] && AllDigits(digits) && unit in {"", "m", "u", "n", "p"}
    ensures DecodeBolt11Amount("ln" + (NETWORKS[network] + (digits + unit)) + "1" + data) == DecodeSuffix(digits + unit)
  {
    var hrp := "ln" + (NETWORKS[network] + (digits + unit));
    HrpIsLower(network, digits, unit);
    HrpMatches(network, digits, unit);
    DecodeSuffixOf(digits, unit);
    InvoiceReads(hrp, digits, unit, data);
  }

  lemma InvoiceReads(hrp: string, digits: string, unit: string, data: string)
    requires Lower(hrp) == hrp && |hrp| >= 2 && hrp[0] == 'l' && data != [] && Bech32.InCharset(data)
    requires AllDigits(digits) && unit in {"", "m", "u", "n", "p"} && MatchHrp(hrp) == Some((digits, unit))
    ensures DecodeBolt11Amount(hrp + "1" + data) == AmountOf(digits, unit)
  {
    InvoiceSplits(hrp, data);
  }

  lemma InvoiceSplits(hrp: string, data: string)
    requires Lower(hrp) == hrp && |hrp| >= 2 && hrp[0] == 'l' && data != [] && Bech32.InCharset(data)
    ensures var pr := hrp + "1" + data;
      Lower(Strip(pr)) == pr && Bech32.LastOne(pr) == Some(|hrp|) && pr[..|hrp|] == hrp
  {
    DataIsLower(data);
    InvoiceIsLower(hrp, data);
    InvoiceIsTrimmed(hrp + "1" + data);
    Bech32.LastOneAt(hrp, data);
    StartsWithHead(hrp, "1", data);
  }

  lemma InvoiceIsTrimmed(pr: string)
    requires pr != [] && pr[0] == 'l' && !IsSpace(pr[|pr| - 1])
    ensures Strip(pr) == pr
  {
    StripTrimmed(pr);
  }

  lemma InvoiceIsLower(hrp: string, data: string)
    requires Lower(hrp) == hrp && Lower(data) == data
    ensures Lower(hrp + "1" + data) == hrp + "1" + data
  {
    LowerAppend(hrp + "1", data);
    LowerAppend(hrp, "1");
    assert Lower("1") == "1";
  }

  lemma DataIsLower(data: string)
    requires data != [] && Bech32.InCharset(data)
    ensures Lower(data) == data && '1' !in data && !IsSpace(data[|data| - 1])
  {
    Bech32.CharsOfSymbols(data);
    Bech32.SymbolsOfChars(Bech32.SymbolsOf(data));
    Bech32.NotSpace(data[|data| - 1]);
  }

  lemma HrpMatches(network: nat, digits: string, unit: string)
    requires network < |NETWORKS|
    requires digits != [] && AllDigits(digits) && unit in {"", "m", "u", "n", "p"}
    ensures MatchHrp("ln" + (NETWORKS[network] + (digits + unit))) == Some((digits, unit))
  {
    var amount := digits + unit;
    var hrp := "ln" + (NETWORKS[network] + amount);
    assert hrp[|hrp| - 1] == amount[|amount| - 1] != '\n';
    assert hrp[2..] == NETWORKS[network] + amount;
    NetworkMatches(network, digits, unit);
  }

  lemma HrpIsLower(network: nat, digits: string, unit: string)
    requires network < |NETWORKS| && AllDigits(digits) && unit in {"", "m", "u", "n", "p"}
    ensures var hrp := "ln" + (NETWORKS[network] + (digits + unit));
      Lower(hrp) == hrp
  {
    LowerAppend("ln", NETWORKS[network] + (digits + unit));
    LowerAppend(NETWORKS[network], digits + unit);
    LowerAppend(digits, unit);
    assert Lower("ln") == "ln" && Lower(NETWORKS[network]) == NETWORKS[network];
    assert Lower(digits) == digits && Lower(unit) == unit;
  }

  /** BOLT 11's own example, an invoice for 20 milli-BTC, and the same amount in a certificate. */
  lemma KnownAmount(network: string, digits: string, data: string)
    requires network in {"bc", "tb", "bcrt", "tbs", "sb"} && data != [] && Bech32.InCharset(data) && digits == "20"
    ensures DecodeBolt11Amount("ln" + (network + (digits + "m")) + "1" + data) == Some(2_000_000_000)
    ensures EncodeSuffix(2_000_000_000) == digits + "m"
  {
    Twenty(digits);
    TwentyMilli(digits, "m");
    SuffixAgreesWithBolt11(NetworkNumber(network), digits, "m", data);
  }

  function NetworkNumber(network: string): (i: nat)
    requires network in {"bc", "tb", "bcrt", "tbs", "sb"}
    ensures i < |NETWORKS| && NETWORKS[i] == network
  {
    if network == "bc" then 0 else if network == "tb" then 1 else if network == "bcrt" then 2
    else if network == "tbs" then 3 else 4
  }

  lemma TwentyMilli(digits: string, unit: string)
    requires digits != [] && AllDigits(digits) && ParseDecimal(digits) == 20 && Decimal(20) == digits && unit == "m"
    ensures DecodeSuffix(digits + unit) == Some(2_000_000_000) && EncodeSuffix(2_000_000_000) == digits + unit
  {
    DecodeSuffixOf(digits, unit);
    TwentyMilliWrites(digits);
  }

  lemma TwentyMilliWrites(digits: string)
    requires Decimal(20) == digits
    ensures EncodeSuffix(2_000_000_000) == digits + "m"
  {
    assert 2_000_000_000 % 100_000_000 == 0 && 2_000_000_000 / 100_000_000 == 20;
  }

  lemma Twenty(digits: string)
    requires digits == "20"
    ensures digits != [] && AllDigits(digits) && ParseDecimal(digits) == 20 && Decimal(20) == digits
  {
    OneDigit(digits[..1]);
    assert digits == digits[..1] + [digits[1]];
    assert Decimal(20) == Decimal(2) + [DigitChar(0)];
  }

  lemma OneDigit(digits: string)
    requires digits == "2"
    ensures AllDigits(digits) && ParseDecimal(digits) == 2 && Decimal(2) == digits
  {
    assert digits[..0] == "" && ParseDecimal("") == 0;
  }

  // ---- fixed-length values ----

  datatype EncodeError = WrongLength | NegativeAmount | StringTooLong

  function EncodeFixed(hrp: string, payload: Bytes, length: nat): Result<string, EncodeError> {
    if |payload| != length then Err(WrongLength)
    else
      match Bech32.Encode(hrp, payload, Bech32.LIMIT, Checksum.BECH32M)
      case Ok(s) => Ok(s)
      case Err(_) => Err(StringTooLong)
  }

  function DecodeFixed(hrp: string, value: string, length: nat): (r: Option<Bytes>)
    ensures r.Some? ==> |r.value| == length
  {
    match Bech32.Decode(Strip(value), Bech32.LIMIT, Checksum.BECH32M)
    case None => None
    case Some(d) => if d.hrp != hrp || |d.payload| != length then None else Some(d.payload)
  }

  lemma FixedExactly(hrp: string, value: string, length: nat, payload: Bytes)
    ensures DecodeFixed(hrp, value, length) == Some(payload) <==>
            && Bech32.Decode(Strip(value), Bech32.LIMIT, Checksum.BECH32M) == Some(Bech32.Decoded(hrp, payload))
            && |payload| == length
  {
  }

  /** Whatever encodes under a proper prefix reads back. */
  lemma FixedReadsBack(hrp: string, payload: Bytes, length: nat, s: string)
    requires Bech32.ProperHrp(hrp) && EncodeFixed(hrp, payload, length) == Ok(s)
    ensures Strip(s) == s && Lower(s) == s && DecodeFixed(hrp, s, length) == Some(payload)
  {
    EncodingIsBech32(hrp, payload, length, s);
    Bech32.EncodingIsTrimmed(hrp, payload, Checksum.BECH32M);
    Bech32.EncodingIsLower(hrp, payload, Checksum.BECH32M);
    Bech32.RoundTrip(hrp, payload, Bech32.LIMIT, Checksum.BECH32M);
  }

  // ---- certificates ----

  datatype Cs1 = Cs1(amountMsat: nat, signature: Bytes)

  function EncodeCs1WithAmount(amount: int, signature: Bytes): Result<string, EncodeError> {
    if amount < 0 then Err(NegativeAmount) else EncodeFixed("cs" + EncodeSuffix(amount), signature, 65)
  }

  function DecodeCs1WithAmount(value: string): Option<Cs1> {
    match Bech32.Decode(Strip(value), Bech32.LIMIT, Checksum.BECH32M)
    case None => None
    case Some(d) =>
      if !("cs" <= d.hrp) || |d.payload| != 65 || d.payload[64] > 3 then None
      else
        match DecodeSuffix(d.hrp[2..])
        case None => None
        case Some(amount) => Some(Cs1(amount, d.payload))
  }

  /** What reads as a certificate has 65 bytes with a recovery id at their end. */
  lemma Cs1Shape(value: string)
    ensures DecodeCs1WithAmount(value).Some? ==>
              |DecodeCs1WithAmount(value).value.signature| == 65 && DecodeCs1WithAmount(value).value.signature[64] <= 3
  {
  }

  lemma Cs1PrefixIsProper(amount: nat)
    ensures Bech32.ProperHrp("cs" + EncodeSuffix(amount))
  {
    var hrp := "cs" + EncodeSuffix(amount);
    assert forall i :: 0 <= i < |hrp| ==> IsDigit(hrp[i]) || hrp[i] in {'c', 's', 'm', 'u', 'n', 'p'};
  }

  /**
   A certificate reads back for every amount and every signature a SERVICE issues, although the prefix may itself
   contain the separator `1`.
   */
  lemma Cs1RoundTrip(amount: nat, signature: Bytes)
    requires |signature| == 65 && signature[64] <= 3 && EncodeCs1WithAmount(amount, signature).Ok?
    ensures DecodeCs1WithAmount(EncodeCs1WithAmount(amount, signature).value) == Some(Cs1(amount, signature))
  {
    var hrp := "cs" + EncodeSuffix(amount);
    var s := EncodeCs1WithAmount(amount, signature).value;
    Cs1PrefixIsProper(amount);
    EncodingIsBech32(hrp, signature, 65, s);
    Bech32.TextRoundTrip(hrp, signature, Bech32.LIMIT, Checksum.BECH32M, s);
    SuffixRoundTrip(amount);
    PrefixReads(s, hrp, signature, amount);
  }

  lemma EncodingIsBech32(hrp: string, payload: Bytes, length: nat, s: string)
    requires EncodeFixed(hrp, payload, length) == Ok(s)
    ensures Bech32.Encode(hrp, payload, Bech32.LIMIT, Checksum.BECH32M) == Ok(s)
  {
  }

  /**
   What has a certificate: any amount that is not negative and any 65 bytes, for every amount of up to 1900 digits.
   */
  lemma Cs1EncodesExactly(amount: int, signature: Bytes)
    ensures EncodeCs1WithAmount(amount, signature) == Err(NegativeAmount) <==> amount < 0
    ensures EncodeCs1WithAmount(amount, signature) == Err(WrongLength) <==> amount >= 0 && |signature| != 65
    ensures amount >= 0 && |signature| == 65 && |EncodeSuffix(amount)| <= 1900 ==>
              EncodeCs1WithAmount(amount, signature).Ok?
  {
    if amount >= 0 && |signature| == 65 {
      Bech32.GroupsBits(signature);
      Bech32.EncodesWithin("cs" + EncodeSuffix(amount), signature, Bech32.LIMIT, Checksum.BECH32M);
    }
  }

  lemma PrefixReads(s: string, hrp: string, signature: Bytes, amount: nat)
    requires Bech32.Decode(Strip(s), Bech32.LIMIT, Checksum.BECH32M) == Some(Bech32.Decoded(hrp, signature))
    requires |signature| == 65 && signature[64] <= 3
    requires hrp == "cs" + EncodeSuffix(amount) && DecodeSuffix(EncodeSuffix(amount)) == Some(amount)
    ensures DecodeCs1WithAmount(s) == Some(Cs1(amount, signature))
  {
    assert hrp[2..] == EncodeSuffix(amount);
  }
}
